# will_paginate link renderer, modelled in Dafny

This project models the HTML link renderer of will_paginate
(`WillPaginate::ViewHelpers::LinkRenderer`). Given a collection's current,
previous and next page numbers, the sequence of display items chosen by the
page-window algorithm (page numbers, the gap marker, the previous and next
links) and the renderer options, it produces the pagination HTML:

- each page number other than the current one becomes a link, with a `rel`
  hint when it is the previous page, the next page or page 1; the current page
  becomes an `<em>`;
- the gap becomes a fixed `<span class="gap">&hellip;</span>`;
- previous/next become a link, or a disabled `<span>` at a boundary;
- the fragments are joined with the separator and, when the `:container`
  option is set, wrapped in a `<div>` carrying the container attributes;
- every link URL comes from the shared URL parameters (`:escape => false`,
  the request's params on a GET, the `:params` option) with the page
  parameter set, deep-merged by `stringified_merge`.

Modules:

- `Params` (`params.dfy`): Ruby hashes as ordered entry lists (insertion
  order kept, `[]=` replaces in place or appends), Symbol and String keys kept
  apart, and `stringified_merge` with its early return.
- `Html` (`html.dfy`): `tag` and `Array#join`.
- `Decimal` (`decimal.dfy`): `Integer#to_s` and its inverse.
- `LinkRenderer` (`link_renderer.dfy`): the renderer itself.
- `Wrappers` (`wrappers.dfy`): `Option`, standing for Ruby's `nil`.

The framework collaborators are inputs, bundled in `LinkRenderer.Template`:
`url_for`, `request.get?`, the request params, `CGI::escapeHTML`,
`parse_query_parameters` and the `to_s` of arrays and hashes. The page
parameter name and the helper's own option keys (`pagination_options.keys`)
are fields of `LinkRenderer.Renderer`. The item sequence is a parameter of
`ToHtml`.

`stringified_merge` returns right after its first recursive merge, so later
entries of the merged hash are dropped. This looks unintended, but the model
reproduces it: `Params.MergeStopsAtFirstHash`, `Params.MergeIgnoresLaterKeys`
and `Params.MergeEarlyReturnExample` state it.

Page 1 gets `rel="start"` even when it is not adjacent to the current page
(`rel_value`, third case); `LinkRenderer.RelAroundCurrentPage` states it.

## Model

| member | source | states |
|---|---|---|
| Params.Put | lib/will_paginate/view_helpers/link_renderer.rb:161 | hash assignment: the key then holds the value and every other key keeps its value; an existing key keeps its position and every other entry stays as it was, a new key is appended; unique keys stay unique |
| Params.Lookup | lib/will_paginate/view_helpers/link_renderer.rb:151 | `target[key]` is nil for an absent key, and a well-formed value when the hash's values are |
| Params.LookupFirst | lib/will_paginate/view_helpers/link_renderer.rb:151 | a key reads the value of its first entry, which in a Ruby hash is its only one |
| Params.Merge | lib/will_paginate/view_helpers/link_renderer.rb:148-163 | the merge only writes String keys, so Symbol keys such as `:escape` are untouched; no key is ever removed; merging well-formed hashes yields a well-formed hash |
| Params.MergeFrom | lib/will_paginate/view_helpers/link_renderer.rb:149-162 | the `each` loop from a given entry on keeps the same three guarantees; the proof uses the contracts of the nested merges |
| Params.MergeFlat | lib/will_paginate/view_helpers/link_renderer.rb:148-163 | when no value is a hash, the merge is plain in-order assignment under stringified keys |
| Params.AssignAllLookup | lib/will_paginate/view_helpers/link_renderer.rb:149-161 | after in-order assignment each key holds the last value assigned to it, or its old value if none was |
| Params.MergeStopsAtFirstHash | lib/will_paginate/view_helpers/link_renderer.rb:153-158 | the first hash value that meets a nil slot is merged into a fresh hash, one that meets a hash is merged into it, and the result is final |
| Params.MergeIgnoresLaterKeys | lib/will_paginate/view_helpers/link_renderer.rb:157 | entries after the first recursive merge leave the target unchanged (the early return) |
| Params.MergeOverwritesScalarSlot | lib/will_paginate/view_helpers/link_renderer.rb:153-161 | a hash value meeting a non-hash, non-nil value overwrites it and the merge continues with the next entry |
| Params.MergeEarlyReturnExample | lib/will_paginate/view_helpers/link_renderer.rb:148-163 | merging `{"a" => {"x" => 1}, "b" => 2}` into `{}` gives `{"a" => {"x" => 1}}`: `"b"` is lost |
| Decimal.ToS | lib/will_paginate/view_helpers/link_renderer.rb:109 | `page.to_s` is non-empty, made of digits and `-`, and starts with a digit exactly when the page is not negative |
| Decimal.NatDigits | lib/will_paginate/view_helpers/link_renderer.rb:109 | a natural number renders as a non-empty string of digits with no leading zero |
| Decimal.ParseToS | lib/will_paginate/view_helpers/link_renderer.rb:109 | reading back the decimal rendering of any integer, sign included, gives that integer |
| Html.AttrStringSkipsNil | lib/will_paginate/view_helpers/link_renderer.rb:131-136 | the attribute string is exactly the present attributes written as ` key="escape(value)"` in order; nil attributes contribute nothing |
| Html.AttrStringAppend | lib/will_paginate/view_helpers/link_renderer.rb:131-136 | the attribute string of two attribute lists is the concatenation of their attribute strings |
| Html.Tag | lib/will_paginate/view_helpers/link_renderer.rb:130-138 | a tag is `<name`, the attribute string, `>`, the unescaped value and `</name>`, at the stated positions and total length |
| Html.EmTag | lib/will_paginate/view_helpers/link_renderer.rb:137 | an `em` tag without attributes is exactly `<em>value</em>` |
| Html.TagWithoutAttributes | lib/will_paginate/view_helpers/link_renderer.rb:130-138 | with only nil attributes the tag is `<name>value</name>` |
| Html.Join | lib/will_paginate/view_helpers/link_renderer.rb:28 | joining no items gives the empty string and joining one item gives that item, whatever the separator |
| Html.JoinAppend | lib/will_paginate/view_helpers/link_renderer.rb:28 | joining one more item appends the separator and that item |
| Html.JoinLength | lib/will_paginate/view_helpers/link_renderer.rb:28 | a join of n items has their total length plus n - 1 separators |
| LinkRenderer.Show | lib/will_paginate/view_helpers/link_renderer.rb:133 | `to_s` of nil is empty and of a String is the string itself |
| LinkRenderer.RelValue | lib/will_paginate/view_helpers/link_renderer.rb:140-146 | `"prev start"` iff the page is the previous page and page 1; `"prev"` iff previous and not 1; `"next"` iff next and not previous; `"start"` iff page 1 and neither; no rel iff none of the three |
| LinkRenderer.RelAroundCurrentPage | lib/will_paginate/view_helpers/link_renderer.rb:140-146 | for a collection whose adjacent pages are current - 1 and current + 1: the page before gets `prev` (`prev start` if it is page 1), the page after gets `next`, page 1 further away gets `start`, any other page none |
| LinkRenderer.DefaultUrlParams | lib/will_paginate/view_helpers/link_renderer.rb:95-102 | the parameters always map `:escape` to false; on anything but a GET they are only that; they are well formed when the request params are |
| LinkRenderer.BaseUrlParams | lib/will_paginate/view_helpers/link_renderer.rb:82-87 | the shared parameters keep `:escape => false`, equal the defaults when `:params` is not set, and stay well formed |
| LinkRenderer.ParamsOptionOverrides | lib/will_paginate/view_helpers/link_renderer.rb:115-117 | a key set by a flat `:params` option has that option's (last) value in the shared parameters, whatever the request said |
| LinkRenderer.LinksKeepGetParams | lib/will_paginate/view_helpers/link_renderer.rb:96-100 | on a GET, with flat request params and no `:params`, every request parameter other than the page parameter reaches the link with its last value |
| LinkRenderer.NonGetLinkParams | lib/will_paginate/view_helpers/link_renderer.rb:96-101 | on a non-GET without `:params`, a link's parameters are exactly `:escape => false` and the page |
| LinkRenderer.FirstNonNameChar | lib/will_paginate/view_helpers/link_renderer.rb:105 | no position iff every character is a word character or `-`; otherwise the first character outside that class |
| LinkRenderer.AddCurrentPageParam | lib/will_paginate/view_helpers/link_renderer.rb:104-113 | a plain name sets the page under that String key and leaves every other key and uniqueness alone; any other name merges the parsed `name=page`; Symbol keys are never touched |
| LinkRenderer.UrlParams | lib/will_paginate/view_helpers/link_renderer.rb:89-90 | a link's parameters keep `:escape => false`; with a plain name they hold the page and agree with the shared parameters on every other key |
| LinkRenderer.Url | lib/will_paginate/view_helpers/link_renderer.rb:82-93 | the URL is `url_for` of the shared parameters with the page added: set under the parameter name when it is plain, merged from the parsed `name=page` otherwise |
| LinkRenderer.Link | lib/will_paginate/view_helpers/link_renderer.rb:121-128 | a link is an `a` tag whose attributes are the given ones, then `rel`, then `href` with the page's URL, written in that order |
| LinkRenderer.Except | lib/will_paginate/view_helpers/link_renderer.rb:37 | removed Symbol keys read as nil, every other key keeps its value, no key is added, unique keys stay unique |
| LinkRenderer.ExceptOne | lib/will_paginate/view_helpers/link_renderer.rb:37 | one entry is dropped exactly when its key is a removed Symbol, and kept unchanged otherwise |
| LinkRenderer.ExceptAppend | lib/will_paginate/view_helpers/link_renderer.rb:37 | `except` keeps the surviving entries in their original order: on a concatenation it is the concatenation of the parts' results |
| LinkRenderer.ContainerAttributes | lib/will_paginate/view_helpers/link_renderer.rb:35-44 | `:class` is kept; the other helper option keys are dropped; other options are kept; `:id` is `"<records>_pagination"` exactly when the container is wanted and `:id` is `true`; the attributes are the kept options in their original order; the automatic `:id` replaces a kept `:id` in place and is otherwise appended at the end |
| LinkRenderer.AttrsOf | lib/will_paginate/view_helpers/link_renderer.rb:131-134 | each option becomes an attribute of the same name, nil exactly when the option is nil, otherwise its `to_s` |
| LinkRenderer.HtmlContainer | lib/will_paginate/view_helpers/link_renderer.rb:76-78 | the container is exactly `<div`, the container attributes written out, `>`, the html unchanged, and `</div>` |
| LinkRenderer.PageNumber | lib/will_paginate/view_helpers/link_renderer.rb:48-54 | the current page is an `em` tag with no attributes; any other page is an `a` tag with its `rel` and an `href` to its URL |
| LinkRenderer.CurrentPageHasNoHref | lib/will_paginate/view_helpers/link_renderer.rb:52 | the current page's rendering contains no `href` (no `h` at all) |
| LinkRenderer.GapIsSpanTag | lib/will_paginate/view_helpers/link_renderer.rb:56-58 | the fixed gap marker is the `span` tag with class `gap` around `&hellip;` that `tag` would build |
| LinkRenderer.PreviousOrNextPage | lib/will_paginate/view_helpers/link_renderer.rb:68-74 | with no adjacent page, a `span` whose class is the class name plus ` disabled` and no `href`; otherwise an `a` with the class, the page's `rel` and its URL |
| LinkRenderer.PreviousDisabledOnFirstPage | lib/will_paginate/view_helpers/link_renderer.rb:60-74 | on page 1 the previous item is a `span` with class `previous_page disabled` |
| LinkRenderer.RenderItem | lib/will_paginate/view_helpers/link_renderer.rb:24-27 | a page number goes to `page_number`, the gap is always the fixed ellipsis span, previous/next go to `previous_or_next_page` with their label and class |
| LinkRenderer.Fragments | lib/will_paginate/view_helpers/link_renderer.rb:24-27 | one fragment per item, in order, each the item's rendering |
| LinkRenderer.ToHtml | lib/will_paginate/view_helpers/link_renderer.rb:23-31 | without a truthy `:container` the output is the fragments joined by the separator; with one it is that same join wrapped by the container |
| LinkRenderer.ToHtmlAppend | lib/will_paginate/view_helpers/link_renderer.rb:24-28 | without a container, one more item adds the separator and its fragment at the end |

## Left out

- `prepare` and the `||=` caching of `container_attributes` and the base URL parameters: the model is pure, so every value is recomputed and equal to the cached one.
- The windowing algorithm behind `pagination`, `param_name` and the option defaults live in `link_renderer_base.rb` and `view_helpers.rb`, which are not part of this model; the item sequence, the parameter name and the option key set are inputs.
- Framework collaborators (`url_for`, `request.get?`, `params`, `CGI::escapeHTML`, `parse_query_parameters`, `to_s` of arrays and hashes) are uninterpreted function inputs, so no property depends on what they compute, except that `LinkRenderer.GapIsSpanTag` (through `Html.ClassSpan`) assumes escaping leaves `gap` unchanged.
- The automatic container id uses the collection's pluralised, underscored class name (`underscore`, `pluralize`); the model takes that name as a string.
- Ruby hashes are values here. In Ruby a merged hash value can be shared with its source (the request params, or the cached base parameters through the shallow `dup`), and a later nested merge mutates both; the model does not track that sharing.
- `link` with a target that is not an integer (line 122-125) is not modelled: every caller in this file passes an integer page.
- Integers are unbounded: a page number outside the `Fixnum` range would not pass `is_a?(Fixnum)` and would be dispatched with `send`; that case is not modelled.
- `rel_value`'s `case` uses `===`; the model compares integers, since the collection's previous and next pages are integers or nil.
- Mistyped options: `LinkRenderer.WellTyped` requires the `:separator` option to be nil or a String and a set `:params` option to be a hash, instead of modelling what Ruby does otherwise. It thereby also excludes cases Ruby handles: a `:params` given as an Array of key/value pairs (which `each do |key, value|` merges like a hash), a separator that is not a String but converts with `to_str`, and any separator when the item list is empty (`join` then returns `""`). What it excludes that Ruby rejects: a `:params` value that does not iterate as key/value pairs, and a separator that is not String-like.
- Hash order: every hash is an insertion-ordered list, as in Ruby 1.9 and later. Under Ruby 1.8, which the file also targets (`CGIMethods` and `AbstractRequest` at line 108, `Fixnum` at lines 25 and 122), hash iteration order is unspecified, so neither the order in which `tag` writes the attributes nor the entry `stringified_merge` reaches first before its early return (line 157) would be fixed. The plain-name test for the page parameter likewise follows Ruby 1.9, where `\w` matches only ASCII letters, digits and `_`; under Ruby 1.8 with `$KCODE = 'u'` it may also match multibyte characters.
- The collection arithmetic (offset, total pages, the Mongoid adapter and its count caching) is outside the renderer; `LinkRenderer.Adjacent` states the only assumption some lemmas make about previous and next pages.
