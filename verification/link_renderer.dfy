/**
 * The pagination link renderer: turns the sequence of display items chosen
 * by the page-window algorithm into an HTML string of page links, a gap
 * marker and previous/next links, optionally wrapped in a container `div`.
 *
 * The framework objects the renderer talks to (the template's `url_for`,
 * the request's `get?` and params, HTML escaping, query-string parsing and
 * the `to_s` of arrays and hashes) are inputs, bundled in `Template`.
 */
module LinkRenderer {
  import opened Wrappers
  import opened Params
  import opened Html
  import Decimal

  /** The framework services the renderer uses but does not define. */
  datatype Template = Template(
    isGet: bool,                       // template.request.get?
    params: seq<Entry>,                // template.params
    urlFor: seq<Entry> -> string,      // template.url_for
    escapeHtml: string -> string,      // CGI::escapeHTML
    parseQuery: string -> seq<Entry>,  // parse_query_parameters
    inspect: Value -> string)          // to_s of an array or a hash

  /**
   * What the renderer reads from the collection: the current page, the
   * adjacent pages (`None` at a boundary) and the pluralised, underscored
   * class name of its records, from which the automatic container id is made.
   */
  datatype Collection = Collection(
    currentPage: int,
    previousPage: Option<int>,
    nextPage: Option<int>,
    recordsName: string)

  /**
   * A prepared renderer. `paramName` is the page parameter's name and
   * `paginationOptionKeys` the names of the helper's own options; both come
   * from the renderer's base class and the view-helper configuration.
   */
  datatype Renderer = Renderer(
    collection: Collection,
    options: seq<Entry>,
    template: Template,
    paramName: string,
    paginationOptionKeys: set<string>)

  /** A display item: a page number, the gap marker, or the previous/next link. */
  datatype Item = PageItem(page: int) | Gap | PreviousPage | NextPage

  /** `@options[name]`. */
  function Opt(r: Renderer, name: string): Value {
    Lookup(r.options, Sym(name))
  }

  /** Ruby truthiness: everything except `nil` and `false`. */
  predicate Truthy(v: Value) {
    !(v.Nil? || v == Flag(false))
  }

  /**
   * The option types the renderer relies on: `join` raises unless the
   * separator is a String or nil, and `stringified_merge` needs `:params`
   * to be a hash whenever it is set.
   */
  predicate WellTyped(options: seq<Entry>) {
    var separator := Lookup(options, Sym("separator"));
    var params := Lookup(options, Sym("params"));
    (separator.Nil? || separator.Text?) && (!Truthy(params) || params.Hash?)
  }

  /** `v.to_s`, as string interpolation applies it. */
  function Show(v: Value, inspect: Value -> string): (s: string)
    ensures v.Nil? ==> s == ""
    ensures v.Text? ==> s == v.s
  {
    match v
    case Nil => ""
    case Flag(b) => if b then "true" else "false"
    case Num(n) => Decimal.ToS(n)
    case Text(t) => t
    case Symbol(id) => id
    case _ => inspect(v)
  }

  // ---------------------------------------------------------------------
  // rel values
  // ---------------------------------------------------------------------

  /**
   * `rel_value(page)`: tested in order, the previous page, the next page,
   * then page 1; every other page gets no `rel`.
   */
  function RelValue(c: Collection, page: int): (rel: Option<string>)
    ensures rel.None? <==> c.previousPage != Some(page) && c.nextPage != Some(page) && page != 1
    ensures rel == Some("prev start") <==> c.previousPage == Some(page) && page == 1
    ensures rel == Some("prev") <==> c.previousPage == Some(page) && page != 1
    ensures rel == Some("next") <==> c.previousPage != Some(page) && c.nextPage == Some(page)
    ensures rel == Some("start") <==> c.previousPage != Some(page) && c.nextPage != Some(page) && page == 1
  {
    // "prev", with " start" appended for page 1
    if c.previousPage == Some(page) then (if page == 1 then Some("prev start") else Some("prev"))
    else if c.nextPage == Some(page) then Some("next")
    else if page == 1 then Some("start")
    else None
  }

  /** The collection's adjacent pages are the ones either side of the current page. */
  predicate Adjacent(c: Collection) {
    && c.currentPage >= 1
    && c.previousPage == (if c.currentPage > 1 then Some(c.currentPage - 1) else None)
    && (c.nextPage.None? || c.nextPage == Some(c.currentPage + 1))
  }

  /** The `rel` of each page, in terms of its distance from the current page. */
  lemma RelAroundCurrentPage(c: Collection, page: int)
    requires Adjacent(c)
    ensures page == c.currentPage - 1 >= 2 ==> RelValue(c, page) == Some("prev")
    ensures page == 1 && c.currentPage == 2 ==> RelValue(c, page) == Some("prev start")
    ensures page == c.currentPage + 1 && c.nextPage.Some? ==> RelValue(c, page) == Some("next")
    ensures page == 1 && c.currentPage >= 3 ==> RelValue(c, page) == Some("start")
    ensures page == c.currentPage ==> RelValue(c, page) == (if page == 1 then Some("start") else None)
    ensures page != 1 && page != c.currentPage - 1 && page != c.currentPage + 1 ==> RelValue(c, page).None?
  {
  }

  // ---------------------------------------------------------------------
  // URL parameters
  // ---------------------------------------------------------------------

  /** `{:escape => false}`: every link's parameters start with this entry. */
  const EscapeOff := Entry(Sym("escape"), Flag(false))

  /** `default_url_params`: the escape marker, plus the request's params on a GET. */
  function DefaultUrlParams(t: Template): (p: seq<Entry>)
    ensures Lookup(p, Sym("escape")) == Flag(false)
    ensures !t.isGet ==> p == [EscapeOff]
    ensures ValuesWellFormed(t.params) ==> WellFormedHash(p)
  {
    assert [EscapeOff][1..] == [];
    assert WellFormedHash([EscapeOff]);
    if t.isGet then Merge([EscapeOff], t.params) else [EscapeOff]
  }

  /** The parameters every link shares: defaults, then the `:params` option merged in if set. */
  function BaseUrlParams(r: Renderer): (p: seq<Entry>)
    requires WellTyped(r.options)
    ensures Lookup(p, Sym("escape")) == Flag(false)
    ensures !Truthy(Opt(r, "params")) ==> p == DefaultUrlParams(r.template)
    ensures ValuesWellFormed(r.template.params) && WellFormed(Opt(r, "params")) ==> WellFormedHash(p)
  {
    var defaults := DefaultUrlParams(r.template);
    var extra := Opt(r, "params");
    if Truthy(extra) then Merge(defaults, extra.entries) else defaults
  }

  /** The characters `\w` and `-` that a plain parameter name consists of. */
  predicate IsNameChar(ch: char) {
    || 'a' <= ch <= 'z' || 'A' <= ch <= 'Z' || '0' <= ch <= '9' || ch == '_' || ch == '-'
  }

  /** `name.index(/[^\w-]/)`: the position of the first character that is not `\w` or `-`. */
  function FirstNonNameChar(name: string): (i: Option<nat>)
    ensures i.None? <==> forall j :: 0 <= j < |name| ==> IsNameChar(name[j])
    ensures i.Some? ==> i.value < |name| && !IsNameChar(name[i.value])
    ensures i.Some? ==> forall j :: 0 <= j < i.value ==> IsNameChar(name[j])
  {
    if |name| == 0 then None
    else if !IsNameChar(name[0]) then Some(0)
    else match FirstNonNameChar(name[1..])
      case None => None
      case Some(j) => Some(j + 1)
  }

  /**
   * `add_current_page_param`: a plain parameter name is set as one flat
   * key; any other name is handed to the query parser with `=page`, and
   * the parsed (nested) hash is merged in.
   */
  function AddCurrentPageParam(urlParams: seq<Entry>, paramName: string, page: int, parseQuery: string -> seq<Entry>): (p: seq<Entry>)
    ensures forall s :: Lookup(p, Sym(s)) == Lookup(urlParams, Sym(s))
    ensures FirstNonNameChar(paramName).None? ==> Lookup(p, Str(paramName)) == Num(page)
    ensures FirstNonNameChar(paramName).None? ==> forall k :: k != Str(paramName) ==> Lookup(p, k) == Lookup(urlParams, k)
    ensures FirstNonNameChar(paramName).None? && Unique(urlParams) ==> Unique(p)
    ensures FirstNonNameChar(paramName).Some? ==> p == Merge(urlParams, parseQuery(paramName + "=" + Decimal.ToS(page)))
  {
    if FirstNonNameChar(paramName).None? then Put(urlParams, Str(paramName), Num(page))
    else Merge(urlParams, parseQuery(paramName + "=" + Decimal.ToS(page)))
  }

  /** The parameters of the link to `page`: the shared ones with the page parameter set. */
  function UrlParams(r: Renderer, page: int): (p: seq<Entry>)
    requires WellTyped(r.options)
    ensures Lookup(p, Sym("escape")) == Flag(false)
    ensures FirstNonNameChar(r.paramName).None? ==> Lookup(p, Str(r.paramName)) == Num(page)
    ensures FirstNonNameChar(r.paramName).None? ==>
      forall k :: k != Str(r.paramName) ==> Lookup(p, k) == Lookup(BaseUrlParams(r), k)
  {
    AddCurrentPageParam(BaseUrlParams(r), r.paramName, page, r.template.parseQuery)
  }

  /** `url(page)`: the template's URL for the page's parameters. */
  function Url(r: Renderer, page: int): (s: string)
    requires WellTyped(r.options)
    ensures FirstNonNameChar(r.paramName).None? ==>
      s == r.template.urlFor(Put(BaseUrlParams(r), Str(r.paramName), Num(page)))
    ensures FirstNonNameChar(r.paramName).Some? ==>
      s == r.template.urlFor(Merge(BaseUrlParams(r), r.template.parseQuery(r.paramName + "=" + Decimal.ToS(page))))
  {
    r.template.urlFor(UrlParams(r, page))
  }

  /**
   * Page links keep the request's GET parameters: with flat request params,
   * no `:params` option and a plain parameter name, the link to `page`
   * carries every request parameter (last occurrence winning), the page
   * number under the parameter name and the escape marker.
   */
  lemma LinksKeepGetParams(r: Renderer, page: int, s: string)
    requires WellTyped(r.options)
    requires r.template.isGet && Flat(r.template.params)
    requires !Truthy(Opt(r, "params"))
    requires FirstNonNameChar(r.paramName).None?
    requires s != r.paramName
    ensures Lookup(UrlParams(r, page), Str(s)) == LastAssigned(r.template.params, Str(s)).GetOr(Nil)
  {
    MergeFlat([EscapeOff], r.template.params);
    AssignAllLookup([EscapeOff], r.template.params, Str(s));
  }

  /**
   * The `:params` option is merged after the request's params, so with a
   * flat option hash its values win for every key it sets.
   */
  lemma ParamsOptionOverrides(r: Renderer, s: string)
    requires WellTyped(r.options)
    requires Opt(r, "params").Hash? && Flat(Opt(r, "params").entries)
    requires LastAssigned(Opt(r, "params").entries, Str(s)).Some?
    ensures Lookup(BaseUrlParams(r), Str(s)) == LastAssigned(Opt(r, "params").entries, Str(s)).value
  {
    var h := Opt(r, "params").entries;
    MergeFlat(DefaultUrlParams(r.template), h);
    AssignAllLookup(DefaultUrlParams(r.template), h, Str(s));
  }

  /** On anything but a GET, and without `:params`, a link's parameters are the escape marker and the page. */
  lemma NonGetLinkParams(r: Renderer, page: int)
    requires WellTyped(r.options)
    requires !r.template.isGet && !Truthy(Opt(r, "params"))
    requires FirstNonNameChar(r.paramName).None?
    ensures UrlParams(r, page) == [EscapeOff, Entry(Str(r.paramName), Num(page))]
  {
  }

  // ---------------------------------------------------------------------
  // Container attributes
  // ---------------------------------------------------------------------

  /** `hash.except(*keys)` for Symbol keys: the entries whose key is not one of `removed`, in order. */
  function Except(d: seq<Entry>, removed: set<string>): (r: seq<Entry>)
    ensures forall s :: s in removed ==> Lookup(r, Sym(s)) == Nil
    ensures forall s :: s !in removed ==> Lookup(r, Sym(s)) == Lookup(d, Sym(s))
    ensures forall s :: Lookup(r, Str(s)) == Lookup(d, Str(s))
    ensures Keys(r) <= Keys(d)
    ensures Unique(d) ==> Unique(r)
  {
    if |d| == 0 then []
    else
      var rest := Except(d[1..], removed);
      if d[0].key.Sym? && d[0].key.name in removed then rest
      else
        assert ([d[0]] + rest)[1..] == rest;
        [d[0]] + rest
  }

  /** A single entry is dropped exactly when it has a removed Symbol key, and kept as it is otherwise. */
  lemma ExceptOne(e: Entry, removed: set<string>)
    ensures Except([e], removed) == if e.key.Sym? && e.key.name in removed then [] else [e]
  {
    assert [e][1..] == [];
  }

  /** `except` works entry by entry: the kept entries of a concatenation are the kept entries of each part, in order. */
  lemma {:induction false} ExceptAppend(d1: seq<Entry>, d2: seq<Entry>, removed: set<string>)
    ensures Except(d1 + d2, removed) == Except(d1, removed) + Except(d2, removed)
  {
    if |d1| == 0 {
      assert d1 + d2 == d2;
    } else {
      assert (d1 + d2)[0] == d1[0];
      assert (d1 + d2)[1..] == d1[1..] + d2;
      ExceptAppend(d1[1..], d2, removed);
    }
  }

  /** The container gets an automatic id when it is wanted and `:id` is exactly `true`. */
  predicate AutoId(r: Renderer) {
    Truthy(Opt(r, "container")) && Opt(r, "id") == Flag(true)
  }

  /**
   * `container_attributes`: the options without the helper's own option
   * keys, except that `:class` is kept; `:id` becomes
   * `"<records>_pagination"` when an automatic id is asked for.
   */
  function ContainerAttributes(r: Renderer): (a: seq<Entry>)
    ensures Lookup(a, Sym("class")) == Opt(r, "class")
    ensures forall s :: s in r.paginationOptionKeys && s != "class" && s != "id" ==> Lookup(a, Sym(s)) == Nil
    ensures forall s :: s !in r.paginationOptionKeys && s != "id" ==> Lookup(a, Sym(s)) == Opt(r, s)
    ensures AutoId(r) ==> Lookup(a, Sym("id")) == Text(r.collection.recordsName + "_pagination")
    ensures !AutoId(r) ==> Lookup(a, Sym("id")) == (if "id" in r.paginationOptionKeys then Nil else Opt(r, "id"))
    ensures forall s :: Lookup(a, Str(s)) == Lookup(r.options, Str(s))
    ensures Unique(r.options) ==> Unique(a)
    ensures var kept := Except(r.options, r.paginationOptionKeys - {"class"});
      a == if AutoId(r) then Put(kept, Sym("id"), Text(r.collection.recordsName + "_pagination")) else kept
  {
    var attributes := Except(r.options, r.paginationOptionKeys - {"class"});
    if AutoId(r) then Put(attributes, Sym("id"), Text(r.collection.recordsName + "_pagination"))
    else attributes
  }

  /** A hash as tag attributes: nil values stay nil, others are converted with `to_s`. */
  function AttrsOf(d: seq<Entry>, inspect: Value -> string): (attrs: seq<Attr>)
    ensures |attrs| == |d|
    ensures forall i :: 0 <= i < |d| ==> attrs[i].name == d[i].key.name
    ensures forall i :: 0 <= i < |d| ==> (attrs[i].value.None? <==> d[i].value.Nil?)
    ensures forall i :: 0 <= i < |d| && !d[i].value.Nil? ==> attrs[i].value == Some(Show(d[i].value, inspect))
  {
    if |d| == 0 then []
    else
      var v := d[0].value;
      [Attr(d[0].key.name, if v.Nil? then None else Some(Show(v, inspect)))] + AttrsOf(d[1..], inspect)
  }

  /** `html_container(html)`: the html wrapped in a `div` with the container attributes. */
  function HtmlContainer(r: Renderer, html: string): (s: string)
    ensures s == "<div" + AttrString(AttrsOf(ContainerAttributes(r), r.template.inspect), r.template.escapeHtml)
                + ">" + html + "</div>"
  {
    var attrs := AttrsOf(ContainerAttributes(r), r.template.inspect);
    DivTag(html, attrs, r.template.escapeHtml);
    Tag("div", html, attrs, r.template.escapeHtml)
  }

  // ---------------------------------------------------------------------
  // Items
  // ---------------------------------------------------------------------

  /**
   * `link(text, page, attributes)`: an `a` tag carrying the given
   * attributes, then `rel` and `href`. (`page_number` passes `rel` in
   * already; `link` stores the same value under the same key, so it stays
   * in first position.)
   */
  function Link(r: Renderer, text: string, page: int, attrs: seq<Attr>): (s: string)
    requires WellTyped(r.options)
    ensures var rel := Attr("rel", RelValue(r.collection, page));
      var href := Attr("href", Some(Url(r, page)));
      var esc := r.template.escapeHtml;
      && s == Tag("a", text, attrs + [rel, href], esc)
      && AttrString(attrs + [rel, href], esc) == AttrString(attrs, esc) + AttrText(rel, esc) + AttrText(href, esc)
  {
    AttrStringThenTwo(attrs, Attr("rel", RelValue(r.collection, page)), Attr("href", Some(Url(r, page))), r.template.escapeHtml);

    Tag("a", text, attrs + [Attr("rel", RelValue(r.collection, page)), Attr("href", Some(Url(r, page)))], r.template.escapeHtml)
  }

  /**
   * `page_number(page)`: the current page is an `em` with no link; any
   * other page is a link to its URL with its `rel`.
   */
  function PageNumber(r: Renderer, page: int): (s: string)
    requires WellTyped(r.options)
    ensures page == r.collection.currentPage ==> s == Tag("em", Decimal.ToS(page), [], r.template.escapeHtml)
    ensures page != r.collection.currentPage ==>
      s == Tag("a", Decimal.ToS(page),
               [Attr("rel", RelValue(r.collection, page)), Attr("href", Some(Url(r, page)))], r.template.escapeHtml)
  {
    var linkAttrs := [Attr("rel", RelValue(r.collection, page)), Attr("href", Some(Url(r, page)))];
    assert [] + linkAttrs == linkAttrs;
    if page != r.collection.currentPage then Link(r, Decimal.ToS(page), page, [])
    else Tag("em", Decimal.ToS(page), [], r.template.escapeHtml)
  }

  /** The current page never becomes a link: its rendering holds no `href` (not even an `h`). */
  lemma CurrentPageHasNoHref(r: Renderer)
    requires WellTyped(r.options)
    ensures forall i :: 0 <= i < |PageNumber(r, r.collection.currentPage)| ==> PageNumber(r, r.collection.currentPage)[i] != 'h'
  {
    var digits := Decimal.ToS(r.collection.currentPage);
    EmTag(digits, r.template.escapeHtml);
    assert 'h' !in digits;
  }

  /** `gap`: the fixed ellipsis marker. */
  const GapHtml := "<span class=\"gap\">&hellip;</span>"

  /**
   * The fixed gap marker is the markup `tag(:span, "&hellip;", :class => "gap")`
   * would build, whenever escaping leaves the class name alone.
   */
  lemma GapIsSpanTag(escape: string -> string)
    requires escape("gap") == "gap"
    ensures GapHtml == Tag("span", "&hellip;", [Attr("class", Some("gap"))], escape)
  {
    ClassSpan("&hellip;", "gap", escape);
  }

  /**
   * `previous_or_next_page(page, text, classname)`: a link with the class
   * when there is an adjacent page, otherwise a disabled `span`.
   */
  function PreviousOrNextPage(r: Renderer, page: Option<int>, text: Value, classname: string): (s: string)
    requires WellTyped(r.options)
    ensures page.None? ==>
      s == Tag("span", Show(text, r.template.inspect), [Attr("class", Some(classname + " disabled"))], r.template.escapeHtml)
    ensures page.Some? ==>
      s == Tag("a", Show(text, r.template.inspect),
               [Attr("class", Some(classname)), Attr("rel", RelValue(r.collection, page.value)),
                Attr("href", Some(Url(r, page.value)))], r.template.escapeHtml)
  {
    var caption := Show(text, r.template.inspect);
    if page.Some? then Link(r, caption, page.value, [Attr("class", Some(classname))])
    else Tag("span", caption, [Attr("class", Some(classname + " disabled"))], r.template.escapeHtml)
  }

  /** One item's fragment: `page_number` for a number, otherwise the method the item names. */
  function RenderItem(r: Renderer, item: Item): (s: string)
    requires WellTyped(r.options)
    ensures item.Gap? ==> s == GapHtml
    ensures item.PageItem? ==> s == PageNumber(r, item.page)
    ensures item.PreviousPage? ==>
      s == PreviousOrNextPage(r, r.collection.previousPage, Opt(r, "previous_label"), "previous_page")
    ensures item.NextPage? ==>
      s == PreviousOrNextPage(r, r.collection.nextPage, Opt(r, "next_label"), "next_page")
  {
    match item
    case PageItem(p) => PageNumber(r, p)
    case Gap => GapHtml
    case PreviousPage => PreviousOrNextPage(r, r.collection.previousPage, Opt(r, "previous_label"), "previous_page")
    case NextPage => PreviousOrNextPage(r, r.collection.nextPage, Opt(r, "next_label"), "next_page")
  }

  /** The previous link at the first page is a disabled span and no link. */
  lemma PreviousDisabledOnFirstPage(r: Renderer)
    requires WellTyped(r.options)
    requires Adjacent(r.collection) && r.collection.currentPage == 1
    ensures RenderItem(r, PreviousPage)
         == Tag("span", Show(Opt(r, "previous_label"), r.template.inspect),
                [Attr("class", Some("previous_page disabled"))], r.template.escapeHtml)
  {
    assert "previous_page" + " disabled" == "previous_page disabled";
  }

  /** Each item rendered, in order. */
  function Fragments(r: Renderer, items: seq<Item>): (f: seq<string>)
    requires WellTyped(r.options)
    ensures |f| == |items|
    ensures forall i :: 0 <= i < |items| ==> f[i] == RenderItem(r, items[i])
  {
    if |items| == 0 then [] else [RenderItem(r, items[0])] + Fragments(r, items[1..])
  }

  /** `@options[:separator]` as `join` uses it: a String, or nothing for nil. */
  function Separator(r: Renderer): string {
    match Opt(r, "separator")
    case Text(s) => s
    case _ => ""
  }

  /**
   * `to_html`: the items' fragments joined by the separator, wrapped in a
   * container `div` exactly when the `:container` option is set.
   */
  function ToHtml(r: Renderer, items: seq<Item>): (html: string)
    requires WellTyped(r.options)
    ensures !Truthy(Opt(r, "container")) ==> html == Join(Fragments(r, items), Separator(r))
    ensures Truthy(Opt(r, "container")) ==> html == HtmlContainer(r, Join(Fragments(r, items), Separator(r)))
  {
    var inner := Join(Fragments(r, items), Separator(r));
    if Truthy(Opt(r, "container")) then HtmlContainer(r, inner) else inner
  }

  /** Without a container, one more item adds the separator and that item's fragment. */
  lemma ToHtmlAppend(r: Renderer, items: seq<Item>, last: Item)
    requires WellTyped(r.options)
    requires !Truthy(Opt(r, "container")) && |items| >= 1
    ensures ToHtml(r, items + [last]) == ToHtml(r, items) + Separator(r) + RenderItem(r, last)
  {
    assert Fragments(r, items + [last]) == Fragments(r, items) + [RenderItem(r, last)];
    JoinAppend(Fragments(r, items), RenderItem(r, last), Separator(r));
  }
}
