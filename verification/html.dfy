/** The renderer's `tag` helper and Ruby's `Array#join`, over plain strings. */
module Html {
  import opened Wrappers

  /** One attribute of a tag; a `None` value (Ruby `nil`) is not written out. */
  datatype Attr = Attr(name: string, value: Option<string>)

  /** ` name="escape(value)"` for a present attribute; nothing for a nil one. */
  function AttrText(a: Attr, escape: string -> string): string {
    match a.value
    case None => ""
    case Some(v) => " " + a.name + "=\"" + escape(v) + "\""
  }

  /** The attributes folded left to right into one string, as `tag` does with `inject`. */
  function AttrString(attrs: seq<Attr>, escape: string -> string): (r: string)
    ensures |attrs| == 0 ==> r == ""
  {
    if |attrs| == 0 then "" else AttrText(attrs[0], escape) + AttrString(attrs[1..], escape)
  }

  /** The attributes that carry a value, in their original order. */
  function Present(attrs: seq<Attr>): (r: seq<Attr>)
    ensures |r| <= |attrs|
    ensures forall i :: 0 <= i < |r| ==> r[i].value.Some?
  {
    if |attrs| == 0 then []
    else if attrs[0].value.Some? then [attrs[0]] + Present(attrs[1..])
    else Present(attrs[1..])
  }

  /** Every attribute written out, with no nil check. */
  function WriteEach(attrs: seq<Attr>, escape: string -> string): string
    requires forall i :: 0 <= i < |attrs| ==> attrs[i].value.Some?
  {
    if |attrs| == 0 then ""
    else " " + attrs[0].name + "=\"" + escape(attrs[0].value.value) + "\"" + WriteEach(attrs[1..], escape)
  }

  /** Nil attributes are skipped: rendering all attributes is rendering the present ones. */
  lemma {:induction false} AttrStringSkipsNil(attrs: seq<Attr>, escape: string -> string)
    ensures AttrString(attrs, escape) == WriteEach(Present(attrs), escape)
  {
    if |attrs| > 0 {
      AttrStringSkipsNil(attrs[1..], escape);
      if attrs[0].value.Some? {
        assert ([attrs[0]] + Present(attrs[1..]))[1..] == Present(attrs[1..]);
      }
    }
  }

  /** Attribute strings concatenate. */
  lemma {:induction false} AttrStringAppend(a: seq<Attr>, b: seq<Attr>, escape: string -> string)
    ensures AttrString(a + b, escape) == AttrString(a, escape) + AttrString(b, escape)
  {
    if |a| == 0 {
      assert a + b == b;
    } else {
      assert (a + b)[0] == a[0];
      assert (a + b)[1..] == a[1..] + b;
      AttrStringAppend(a[1..], b, escape);
      calc {
        AttrString(a + b, escape);
        AttrText(a[0], escape) + AttrString(a[1..] + b, escape);
        AttrText(a[0], escape) + (AttrString(a[1..], escape) + AttrString(b, escape));
        (AttrText(a[0], escape) + AttrString(a[1..], escape)) + AttrString(b, escape);
      }
    }
  }

  /** A two-attribute list writes the first attribute, then the second. */
  lemma AttrStringPair(x: Attr, y: Attr, escape: string -> string)
    ensures AttrString([x, y], escape) == AttrText(x, escape) + AttrText(y, escape)
  {
    assert [x, y][1..] == [y];
    assert [y][1..] == [];
    assert AttrString([y], escape) == AttrText(y, escape);
  }

  /** Two attributes added at the end are written after the others, in their order. */
  lemma AttrStringThenTwo(a: seq<Attr>, x: Attr, y: Attr, escape: string -> string)
    ensures AttrString(a + [x, y], escape) == AttrString(a, escape) + AttrText(x, escape) + AttrText(y, escape)
  {
    AttrStringAppend(a, [x, y], escape);
    AttrStringPair(x, y, escape);
  }

  /**
   * `tag(name, value, attributes)`: `<name attrs>value</name>`, with the
   * attribute values escaped and the inner value inserted unescaped.
   */
  function Tag(name: string, value: string, attrs: seq<Attr>, escape: string -> string): (r: string)
    ensures var a := AttrString(attrs, escape);
      && |r| == 2 * |name| + 5 + |a| + |value|
      && r[..1 + |name|] == "<" + name
      && r[1 + |name|..1 + |name| + |a|] == a
      && r[1 + |name| + |a|] == '>'
      && r[|r| - |name| - 3 - |value|..|r| - |name| - 3] == value
      && r[|r| - |name| - 3..] == "</" + name + ">"
  {
    OpenTag(name, AttrString(attrs, escape)) + value + CloseTag(name)
  }

  /** `<name attrs>` */
  function OpenTag(name: string, attrText: string): string {
    "<" + name + attrText + ">"
  }

  /** `</name>` */
  function CloseTag(name: string): string {
    "</" + name + ">"
  }

  /** An `em` tag without attributes written out: `<em>value</em>`. */
  lemma EmTag(value: string, escape: string -> string)
    ensures Tag("em", value, [], escape) == "<em>" + value + "</em>"
  {
    assert ['<'] + ['e', 'm'] == ['<', 'e', 'm'];
    assert ['<', '/'] + ['e', 'm'] + ['>'] == ['<', '/', 'e', 'm', '>'];
  }

  /** A `span` whose only attribute is a class that escaping leaves alone, written out. */
  lemma ClassSpan(value: string, cls: string, escape: string -> string)
    requires escape(cls) == cls
    ensures Tag("span", value, [Attr("class", Some(cls))], escape) == "<span class=\"" + cls + "\">" + value + "</span>"
  {
    var a := Attr("class", Some(cls));
    assert [a][1..] == [];
    assert AttrString([a], escape) == " class=\"" + cls + "\"" by {
      assert [' '] + ['c', 'l', 'a', 's', 's'] + ['=', '"'] == [' ', 'c', 'l', 'a', 's', 's', '=', '"'];
    }
    assert ['<'] + ['s', 'p', 'a', 'n'] == ['<', 's', 'p', 'a', 'n'];
    assert ['<', '/'] + ['s', 'p', 'a', 'n'] + ['>'] == ['<', '/', 's', 'p', 'a', 'n', '>'];
    assert ['<', 's', 'p', 'a', 'n'] + [' ', 'c', 'l', 'a', 's', 's', '=', '"'] == ['<', 's', 'p', 'a', 'n', ' ', 'c', 'l', 'a', 's', 's', '=', '"'];
    assert ['"'] + ['>'] == ['"', '>'];
  }

  /** The container tag written out: `<div attrs>value</div>`. */
  lemma DivTag(value: string, attrs: seq<Attr>, escape: string -> string)
    ensures Tag("div", value, attrs, escape) == "<div" + AttrString(attrs, escape) + ">" + value + "</div>"
  {
    assert ['<'] + ['d', 'i', 'v'] == ['<', 'd', 'i', 'v'];
    assert ['<', '/'] + ['d', 'i', 'v'] + ['>'] == ['<', '/', 'd', 'i', 'v', '>'];
  }

  /** A tag whose attributes are all nil has a bare opening tag. */
  lemma TagWithoutAttributes(name: string, value: string, attrs: seq<Attr>, escape: string -> string)
    requires forall i :: 0 <= i < |attrs| ==> attrs[i].value.None?
    ensures Tag(name, value, attrs, escape) == "<" + name + ">" + value + "</" + name + ">"
  {
    AttrStringSkipsNil(attrs, escape);
    PresentOnlyFromAttrs(attrs);
  }

  lemma {:induction false} PresentOnlyFromAttrs(attrs: seq<Attr>)
    requires forall i :: 0 <= i < |attrs| ==> attrs[i].value.None?
    ensures Present(attrs) == []
  {
    if |attrs| > 0 {
      PresentOnlyFromAttrs(attrs[1..]);
    }
  }

  /** `items.join(separator)`. */
  function Join(items: seq<string>, separator: string): (r: string)
    ensures |items| == 0 ==> r == ""
    ensures |items| == 1 ==> r == items[0]
  {
    if |items| == 0 then ""
    else if |items| == 1 then items[0]
    else items[0] + separator + Join(items[1..], separator)
  }

  /** Appending an item appends the separator and the item. */
  lemma {:induction false} JoinAppend(items: seq<string>, last: string, separator: string)
    requires |items| >= 1
    ensures Join(items + [last], separator) == Join(items, separator) + separator + last
  {
    if |items| == 1 {
      assert (items + [last])[1..] == [last];
    } else {
      assert (items + [last])[1..] == items[1..] + [last];
      JoinAppend(items[1..], last, separator);
    }
  }

  /** The sum of the lengths of `items`. */
  function TotalLength(items: seq<string>): nat {
    if |items| == 0 then 0 else |items[0]| + TotalLength(items[1..])
  }

  /** A join of `n` items holds their characters and `n - 1` separators. */
  lemma {:induction false} JoinLength(items: seq<string>, separator: string)
    requires |items| >= 1
    ensures |Join(items, separator)| == TotalLength(items) + (|items| - 1) * |separator|
  {
    if |items| > 1 {
      JoinLength(items[1..], separator);
    }
  }
}
