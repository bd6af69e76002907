/**
 * Ruby hashes as used for URL parameters and renderer options, and the
 * renderer's `stringified_merge` deep-merge of one hash into another.
 *
 * A Ruby hash (from Ruby 1.9 on) remembers insertion order, so it is an
 * ordered list of entries: assigning to an existing key replaces the value in
 * place, and assigning to a new key appends it.
 */
module Params {
  import opened Wrappers

  /** A hash key. A Symbol (`:escape`) and a String (`"escape"`) are distinct keys. */
  datatype Key = Sym(name: string) | Str(name: string)

  /** The values that occur in request parameters and renderer options. */
  datatype Value =
    | Nil
    | Flag(b: bool)
    | Num(n: int)
    | Text(s: string)
    | Symbol(id: string)
    | List(items: seq<Value>)
    | Hash(entries: seq<Entry>)

  datatype Entry = Entry(key: Key, value: Value)

  /** `key.to_s`: the key as a String key. */
  function Stringify(k: Key): (r: Key)
    ensures r.Str? && r.name == k.name
  {
    Str(k.name)
  }

  function Keys(d: seq<Entry>): set<Key> {
    if |d| == 0 then {} else {d[0].key} + Keys(d[1..])
  }

  /** No key occurs twice, as in every Ruby hash. */
  predicate Unique(d: seq<Entry>) {
    |d| == 0 || (d[0].key !in Keys(d[1..]) && Unique(d[1..]))
  }

  /** Every nested hash has unique keys. */
  predicate WellFormed(v: Value) {
    match v
    case List(items) => forall i :: 0 <= i < |items| ==> WellFormed(items[i])
    case Hash(es) => Unique(es) && forall i :: 0 <= i < |es| ==> WellFormed(es[i].value)
    case _ => true
  }

  /** Every value stored in `d` is well formed (its keys may repeat). */
  predicate ValuesWellFormed(d: seq<Entry>) {
    forall i :: 0 <= i < |d| ==> WellFormed(d[i].value)
  }

  predicate WellFormedHash(d: seq<Entry>) {
    Unique(d) && ValuesWellFormed(d)
  }

  /** `d[k]`: the value stored under `k`, or `nil` when `k` is absent. */
  function Lookup(d: seq<Entry>, k: Key): (v: Value)
    ensures k !in Keys(d) ==> v == Nil
    ensures ValuesWellFormed(d) ==> WellFormed(v)
  {
    if |d| == 0 then Nil
    else if d[0].key == k then d[0].value
    else Lookup(d[1..], k)
  }

  /** A key's value is the one in its first entry; in a Ruby hash that is its only entry. */
  lemma {:induction false} LookupFirst(d: seq<Entry>, k: Key, i: nat)
    requires i < |d| && d[i].key == k
    requires forall j :: 0 <= j < i ==> d[j].key != k
    ensures Lookup(d, k) == d[i].value
  {
    if i > 0 {
      LookupFirst(d[1..], k, i - 1);
    }
  }

  /** `d[k] = v`. */
  function Put(d: seq<Entry>, k: Key, v: Value): (r: seq<Entry>)
    ensures Lookup(r, k) == v
    ensures forall k' :: k' != k ==> Lookup(r, k') == Lookup(d, k')
    ensures Keys(r) == Keys(d) + {k}
    ensures k in Keys(d) ==> |r| == |d|
    ensures k in Keys(d) ==> forall i :: 0 <= i < |d| ==> r[i].key == d[i].key
    ensures k in Keys(d) ==> forall i :: 0 <= i < |d| && d[i].key != k ==> r[i] == d[i]
    ensures k !in Keys(d) ==> r == d + [Entry(k, v)]
    ensures Unique(d) ==> Unique(r)
    ensures ValuesWellFormed(d) && WellFormed(v) ==> ValuesWellFormed(r)
  {
    if |d| == 0 then [Entry(k, v)]
    else if d[0].key == k then [Entry(k, v)] + d[1..]
    else
      var rest := Put(d[1..], k, v);
      assert ([d[0]] + rest)[1..] == rest;
      [d[0]] + rest
  }

  /** True when no value of `d` is a hash, so merging `d` never recurses. */
  predicate Flat(d: seq<Entry>) {
    forall i :: 0 <= i < |d| ==> !d[i].value.Hash?
  }

  /**
   * `stringified_merge(target, other)`, returning the updated `target`.
   * Entries of `other` are visited in order under their stringified key:
   * a non-hash value overwrites the slot; a hash value meeting an empty
   * (nil) slot is merged into a fresh hash; a hash value meeting a hash is
   * merged into it; a hash value meeting any other value overwrites it.
   * After the first recursive merge the procedure returns, so the rest of
   * `other` is not visited.
   */
  function Merge(target: seq<Entry>, other: seq<Entry>): (r: seq<Entry>)
    ensures forall s :: Lookup(r, Sym(s)) == Lookup(target, Sym(s))
    ensures Keys(target) <= Keys(r)
    ensures WellFormedHash(target) && ValuesWellFormed(other) ==> WellFormedHash(r)
    decreases Hash(other), |other| + 1
  {
    MergeFrom(target, other, 0)
  }

  /** The `other.each` loop of `stringified_merge`, from entry `i` of `other` on. */
  function MergeFrom(target: seq<Entry>, other: seq<Entry>, i: nat): (r: seq<Entry>)
    requires i <= |other|
    ensures forall s :: Lookup(r, Sym(s)) == Lookup(target, Sym(s))
    ensures Keys(target) <= Keys(r)
    ensures WellFormedHash(target) && ValuesWellFormed(other) ==> WellFormedHash(r)
    decreases Hash(other), |other| - i
  {
    if i == |other| then target
    else
      var key := Stringify(other[i].key);
      var value := other[i].value;
      var existing := Lookup(target, key);
      if value.Hash? && existing.Nil? then
        Put(target, key, Hash(Merge([], value.entries)))
      else if value.Hash? && existing.Hash? then
        Put(target, key, Hash(Merge(existing.entries, value.entries)))
      else
        MergeFrom(Put(target, key, value), other, i + 1)
  }

  /** Plain assignment of every entry in order, `other.each { |k, v| target[k.to_s] = v }`. */
  function AssignAll(target: seq<Entry>, other: seq<Entry>): (r: seq<Entry>)
    ensures forall s :: Lookup(r, Sym(s)) == Lookup(target, Sym(s))
    ensures Unique(target) ==> Unique(r)
    decreases other
  {
    if |other| == 0 then target
    else AssignAll(Put(target, Stringify(other[0].key), other[0].value), other[1..])
  }

  /** The value the last entry of `other` with stringified key `k` carries, if any. */
  function LastAssigned(other: seq<Entry>, k: Key): Option<Value>
    decreases |other|
  {
    if |other| == 0 then None
    else if Stringify(other[|other| - 1].key) == k then Some(other[|other| - 1].value)
    else LastAssigned(other[..|other| - 1], k)
  }

  /** After plain assignment, each key holds the last value assigned to it, or its old value. */
  lemma {:induction false} AssignAllLookup(target: seq<Entry>, other: seq<Entry>, k: Key)
    ensures Lookup(AssignAll(target, other), k) == LastAssigned(other, k).GetOr(Lookup(target, k))
    decreases |other|
  {
    if |other| > 0 {
      var n := |other| - 1;
      var init, e := other[..n], other[n];
      assert init + [e] == other;
      AssignAllSnoc(target, init, e);
      var before := AssignAll(target, init);
      assert AssignAll(target, other) == Put(before, Stringify(e.key), e.value);
      AssignAllLookup(target, init, k);
      if Stringify(e.key) == k {
        assert LastAssigned(other, k) == Some(e.value);
      } else {
        assert LastAssigned(other, k) == LastAssigned(init, k);
        assert Lookup(Put(before, Stringify(e.key), e.value), k) == Lookup(before, k);
      }
    }
  }

  lemma {:induction false} AssignAllSnoc(target: seq<Entry>, init: seq<Entry>, e: Entry)
    ensures AssignAll(target, init + [e]) == Put(AssignAll(target, init), Stringify(e.key), e.value)
    decreases |init|
  {
    if |init| == 0 {
      assert [e][1..] == [];
    } else {
      assert (init + [e])[1..] == init[1..] + [e];
      AssignAllSnoc(Put(target, Stringify(init[0].key), init[0].value), init[1..], e);
    }
  }

  /** Visiting the hash-free entries `other[i..j]` is plain assignment of them. */
  lemma {:induction false} MergeFromFlatRun(target: seq<Entry>, other: seq<Entry>, i: nat, j: nat)
    requires i <= j <= |other|
    requires Flat(other[i..j])
    ensures MergeFrom(target, other, i) == MergeFrom(AssignAll(target, other[i..j]), other, j)
    decreases j - i
  {
    if i < j {
      var run := other[i..j];
      assert run[0] == other[i] && !run[0].value.Hash?;
      assert run[1..] == other[i + 1..j];
      var next := Put(target, Stringify(other[i].key), other[i].value);
      assert MergeFrom(target, other, i) == MergeFrom(next, other, i + 1);
      assert AssignAll(target, run) == AssignAll(next, other[i + 1..j]);
      MergeFromFlatRun(next, other, i + 1, j);
    }
  }

  /** On hash-free input, `stringified_merge` is plain assignment. */
  lemma MergeFlat(target: seq<Entry>, other: seq<Entry>)
    requires Flat(other)
    ensures Merge(target, other) == AssignAll(target, other)
  {
    assert other[0..|other|] == other;
    MergeFromFlatRun(target, other, 0, |other|);
  }

  /** The slot a hash value of `other` is merged into: the existing hash, or a fresh one. */
  function MergeSlot(existing: Value): seq<Entry> {
    if existing.Hash? then existing.entries else []
  }

  /**
   * The first hash value of `other` that meets a nil or hash slot is merged
   * recursively, and the merge ends there: nothing after it in `other` is
   * looked at.
   */
  lemma MergeStopsAtFirstHash(target: seq<Entry>, pre: seq<Entry>, k: Key, h: seq<Entry>, post: seq<Entry>)
    requires Flat(pre)
    requires Lookup(AssignAll(target, pre), Stringify(k)).Nil? || Lookup(AssignAll(target, pre), Stringify(k)).Hash?
    ensures Merge(target, pre + [Entry(k, Hash(h))] + post)
         == Put(AssignAll(target, pre), Stringify(k), Hash(Merge(MergeSlot(Lookup(AssignAll(target, pre), Stringify(k))), h)))
  {
    var other := pre + [Entry(k, Hash(h))] + post;
    assert other[0..|pre|] == pre;
    assert other[|pre|] == Entry(k, Hash(h));
    MergeFromFlatRun(target, other, 0, |pre|);
  }

  /** Entries that follow the first recursive merge leave the target unchanged. */
  lemma MergeIgnoresLaterKeys(target: seq<Entry>, pre: seq<Entry>, k: Key, h: seq<Entry>, post: seq<Entry>)
    requires Flat(pre)
    requires Lookup(AssignAll(target, pre), Stringify(k)).Nil? || Lookup(AssignAll(target, pre), Stringify(k)).Hash?
    ensures Merge(target, pre + [Entry(k, Hash(h))] + post) == Merge(target, pre + [Entry(k, Hash(h))])
  {
    MergeStopsAtFirstHash(target, pre, k, h, post);
    MergeStopsAtFirstHash(target, pre, k, h, []);
    assert pre + [Entry(k, Hash(h))] + [] == pre + [Entry(k, Hash(h))];
  }

  /** A hash value meeting a non-hash, non-nil slot overwrites it and the merge goes on. */
  lemma MergeOverwritesScalarSlot(target: seq<Entry>, pre: seq<Entry>, k: Key, h: seq<Entry>, post: seq<Entry>)
    requires Flat(pre)
    requires !Lookup(AssignAll(target, pre), Stringify(k)).Nil? && !Lookup(AssignAll(target, pre), Stringify(k)).Hash?
    ensures Merge(target, pre + [Entry(k, Hash(h))] + post)
         == Merge(Put(AssignAll(target, pre), Stringify(k), Hash(h)), post)
  {
    var other := pre + [Entry(k, Hash(h))] + post;
    assert other[0..|pre|] == pre;
    assert other[|pre|] == Entry(k, Hash(h));
    MergeFromFlatRun(target, other, 0, |pre|);
    MergeFromSuffix(Put(AssignAll(target, pre), Stringify(k), Hash(h)), other, |pre| + 1, post);
  }

  /** Visiting `other` from entry `i` on is merging the suffix `other[i..]`. */
  lemma {:induction false} MergeFromSuffix(target: seq<Entry>, other: seq<Entry>, i: nat, suffix: seq<Entry>)
    requires i <= |other| && suffix == other[i..]
    ensures MergeFrom(target, other, i) == Merge(target, suffix)
    decreases |other| - i
  {
    if i < |other| {
      assert suffix[0] == other[i];
      var key := Stringify(other[i].key);
      var value := other[i].value;
      if !(value.Hash? && (Lookup(target, key).Nil? || Lookup(target, key).Hash?)) {
        MergeFromSuffix(Put(target, key, value), other, i + 1, other[i + 1..]);
        MergeFromSuffix(Put(target, key, value), suffix, 1, suffix[1..]);
      }
    }
  }

  /** A concrete instance of the early return: `{"a" => {"x" => 1}, "b" => 2}` merged into `{}` drops `"b"`. */
  lemma MergeEarlyReturnExample()
    ensures Merge([], [Entry(Str("a"), Hash([Entry(Str("x"), Num(1))])), Entry(Str("b"), Num(2))])
         == [Entry(Str("a"), Hash([Entry(Str("x"), Num(1))]))]
  {
    var pre: seq<Entry> := [];
    MergeStopsAtFirstHash([], pre, Str("a"), [Entry(Str("x"), Num(1))], [Entry(Str("b"), Num(2))]);
    assert pre + [Entry(Str("a"), Hash([Entry(Str("x"), Num(1))]))] + [Entry(Str("b"), Num(2))]
        == [Entry(Str("a"), Hash([Entry(Str("x"), Num(1))])), Entry(Str("b"), Num(2))];
  }
}
