# simple-datatables helpers, modelled in Dafny

This project models four helpers of `src/helpers.ts` in simple-datatables, a
table library for the browser:

- `truncate`, the pager truncation algorithm. It takes one pagination list
  item per page, the current page, the page count and the `pagerDelta`
  option. It returns the list to render: page 1, the last page and a window
  around the current page. The window is pinned to the start or to the end
  near the edges. A gap of exactly one page between kept pages shows that
  page. A longer gap shows one fresh ellipsis item. It also clears the
  "active" class on every kept item.
- `escapeText`, which escapes `&`, `<`, `>` and `"` as HTML entities.
- `visibleToColumnIndex`, which turns an index among the visible columns into
  an index in the full column list.
- `objToText`, which extracts the text of a node tree.

Files and modules:

- `wrappers.dfy` (`Wrappers`): the `Option` type, used for the optional `pagerDelta` setting.
- `pager.dfy` (`Pager`): the data model (`Link = Page(n) | Ellipsis`, `Window`), the
  specification functions (`PageWindow`, `IsKept`, `KeptUpTo`, `Gap`, `Compress`,
  `Truncated`) and the imperative `Truncate` method. Each of the source's two
  loops is a method of its own: `CollectKept` clears flags in an `array<bool>`
  that stands for the items' "active" class, and `MergeGaps` builds the list.
- `pager_properties.dfy` (`PagerProperties`): what is proved about the kept set, the
  gap-merge pass and the returned list. This includes a closed form
  (`TruncatedShape`) from which the list's length and the worked cases follow.
- `escape.dfy` (`Escape`): the chained replacements and the per-character escaping,
  proved equal. Also proved: the result holds no markup characters, and escaping
  can be undone.
- `columns.dfy` (`Columns`): the counting loop of `visibleToColumnIndex`, proved against
  a count of visible columns.
- `node_text.dfy` (`NodeText`): the node tree and `objToText`, proved equal to a
  map-then-join over the children.

Modelling choices:

- An item is identified by its page number. The item at index `i` is the
  button of page `i + 1`, which is what its `data-page` attribute records.
  `Page(n)` in the output is the caller's item of page `n`. `Ellipsis` is a
  newly built item.
- Page numbers, `currentPage`, `pagesLength` and `pagerDelta` are unbounded
  integers. The source checks none of them. A negative or zero `pagesLength`
  yields an empty list, because the collecting loop does not run.
  `currentPage` may be any integer. The only precondition of `Truncate` is
  that there is an item for every page (`pagesLength <= active.Length`). The
  source would read `undefined` otherwise.
- `truncate` checks neither `currentPage` nor `pagesLength` nor the number of
  items, and the model does not add such checks. At most one of the two window
  corrections applies (`if` / `else if`, src/helpers.ts:70-74), and neither
  applies in the middle region. `WindowPinned` states this.
- `active[i]` says whether item `i` carries the class `classes.active`, which
  the collecting loop removes from every kept item (src/helpers.ts:79).
- `pagerDelta` is `options.pagerDelta || 2`: an absent or zero option gives 2.
  The lemmas about `Truncated` take the delta as an integer. Those that need a
  sign ask for `delta >= 0`.

## Model

| member | source | states |
|---|---|---|
| `Pager.PagerDelta` | src/helpers.ts:61 | An absent or zero option gives the default 2. Any other value is used as given. The delta in use is never 0. This is the `||` formula itself. |
| `Pager.PageWindow` | src/helpers.ts:66-74 | Definition of the corrected window; its properties are proved in `WindowPinned` and `WindowAroundCurrentPage`. |
| `Pager.IsKept` | src/helpers.ts:77 | Definition of the keep condition; used by `KeptPages`, `CollectKept` and `Truncate`. |
| `Pager.KeptUpTo` | src/helpers.ts:76-82 | Definition of the pages the collecting loop pushes; its properties are proved in `KeptPages` and `KeptEnds`. |
| `Pager.Gap` | src/helpers.ts:89-96 | Definition of what is pushed between two kept pages; used by `Compress` and `CompressAppend`. |
| `Pager.Compress` | src/helpers.ts:85-101 | Definition of the gap-merging walk; its properties are proved in `CompressAppend`, `CompressEnds`, `CompressOrdered` and `CompressContents`. |
| `Pager.Truncated` | src/helpers.ts:60-104 | Definition of the returned list; its properties are proved in `TruncatedOrdered`, `TruncatedContents`, `TruncatedShape` and `TruncatedLength`. |
| `Pager.Truncate` | src/helpers.ts:60-104 | Returns exactly `Truncated` of its inputs with the resolved delta. Afterwards an item's active flag is its old flag with the flag cleared on exactly the kept pages. Every other item, including a page shown by the gap-of-2 rule, keeps its flag. |
| `Pager.CollectKept` | src/helpers.ts:76-82 | Returns the kept pages as `KeptUpTo` lists them. Clears the active flag of exactly the kept pages' items and keeps every other flag. |
| `Pager.MergeGaps` | src/helpers.ts:84-101 | Returns the gap-merged walk `Compress` of the kept pages: a skipped single page is shown, a longer gap becomes one ellipsis. |
| `PagerProperties.WindowPinned` | src/helpers.ts:66-74 | The window formula of lines 66-74 with its arithmetic simplified; the property the window serves is `WindowAroundCurrentPage`. Below page 4 + delta the window ends at page 3 + 2·delta. Otherwise, above pagesLength − (3 + delta), it starts at page pagesLength − (2 + 2·delta). In between it is delta pages on each side. The start pin wins when both conditions hold. |
| `PagerProperties.WindowAroundCurrentPage` | src/helpers.ts:66-74 | For delta ≥ 0 the corrected window contains the current page and is at least 2·delta wide. |
| `PagerProperties.KeptPages` | src/helpers.ts:76-82 | The collecting loop pushes the kept pages in strictly ascending order, each once. Page k is pushed iff 1 ≤ k ≤ pagesLength and k is 1, pagesLength or inside the window. |
| `PagerProperties.KeptEnds` | src/helpers.ts:76-82 | With at least one page, the kept list starts at page 1 and ends at page pagesLength. |
| `PagerProperties.CompressAppend` | src/helpers.ts:85-101 | The walk over two concatenated ascending lists is the walk over each, joined by what the gap between them yields. |
| `PagerProperties.CompressEnds` | src/helpers.ts:85-101 | For any non-empty ascending list, the walk starts with the first page and ends with the last page, never with an ellipsis. It shows no page outside that range. |
| `PagerProperties.CompressOrdered` | src/helpers.ts:85-101 | Shown pages are strictly ascending, and two pages side by side are consecutive. Every ellipsis sits between two pages that differ by more than 2, so an ellipsis never replaces a single page. |
| `PagerProperties.CompressContents` | src/helpers.ts:85-101 | Every kept page is shown. A shown page that was not kept is the one page missing between two kept pages (the gap-of-2 rule). |
| `PagerProperties.TruncatedEmpty` | src/helpers.ts:76-82 | With no pages the result is empty. |
| `PagerProperties.TruncatedOrdered` | src/helpers.ts:60-104 | With pagesLength ≥ 1 the result starts with page 1 and ends with page pagesLength. Its pages lie in 1..pagesLength, ascend strictly, and are consecutive when side by side. Each ellipsis stands for at least two pages, and no two ellipses are adjacent. |
| `PagerProperties.TruncatedContents` | src/helpers.ts:76-101 | Every kept page appears in the result. Any other page that appears is not kept, and both of its neighbours are kept. |
| `PagerProperties.CurrentPageShown` | src/helpers.ts:66-101 | For delta ≥ 0 and 1 ≤ currentPage ≤ pagesLength, the current page is shown. |
| `PagerProperties.TruncatedShape` | src/helpers.ts:66-101 | Closed form of the result. It is page 1 with the gap after it, then the window clipped to 1..pagesLength, then the gap before the last page with the last page. When the window misses every page, it is page 1, one gap and the last page. |
| `PagerProperties.TruncatedLength` | src/helpers.ts:66-101 | For delta ≥ 0, pagesLength ≥ 1 and any current page, the result has exactly min(pagesLength, 2·delta + 5) elements. The pinning keeps the width constant near the edges. |
| `PagerProperties.WholeRange` | src/helpers.ts:66-101 | When pagesLength ≤ 3 + 2·delta, the result is exactly pages 1..pagesLength with no ellipsis, for any current page. |
| `PagerProperties.FivePagesAllShown` | src/helpers.ts:60-104 | Five pages, page 3, delta 2: pages 1 to 5. |
| `PagerProperties.TwentyPagesAtStart` | src/helpers.ts:60-104 | Twenty pages, page 1, delta 2: pages 1 to 7, an ellipsis, page 20. |
| `PagerProperties.TwentyPagesAtEnd` | src/helpers.ts:60-104 | Twenty pages, page 20, delta 2: page 1, an ellipsis, pages 14 to 20. |
| `PagerProperties.TwentyPagesInMiddle` | src/helpers.ts:60-104 | Twenty pages, page 10, delta 2: page 1, an ellipsis, pages 8 to 12, an ellipsis, page 20. |
| `PagerProperties.TenPagesSkippedPageInlined` | src/helpers.ts:60-104 | Ten pages, page 5, delta 2: the window is pinned to 3..7. Page 2 is shown instead of an ellipsis, then pages up to 7, an ellipsis, page 10. |
| `Escape.ReplaceAll` | src/helpers.ts:120-123 | Definition of one global one-character `replace`; its properties are proved in `ReplaceAllAppend`. |
| `Escape.EscapeText` | src/helpers.ts:118-124 | Definition of the chained replacements; its properties are proved in `EscapeTextIsPerCharacter`, `EscapeTextHasNoMarkup` and `EscapeTextInjective`. |
| `Escape.EscapeTextIsPerCharacter` | src/helpers.ts:118-124 | The four chained global replacements equal the per-character map `&`→`&amp;`, `<`→`&lt;`, `>`→`&gt;`, `"`→`&quot;`, with other characters kept in order. Because `&` goes first, no produced entity is escaped again. |
| `Escape.EscapeTextHasNoMarkup` | src/helpers.ts:118-124 | The result contains no `<`, `>` or `"`, and is at least as long as the text. |
| `Escape.EscapeTextInjective` | src/helpers.ts:118-124 | Two texts with the same escaping are equal: escaping loses nothing. |
| `Escape.UnescapeEscapeEach` | src/helpers.ts:118-124 | Reading the entities back from the per-character escaping gives the original text. |
| `Escape.ReplaceAllAppend` | src/helpers.ts:120 | A global one-character replacement distributes over concatenation. |
| `Escape.AmpersandFirstMatters` | src/helpers.ts:120-121 | `<` escapes to `&lt;`. With `&` replaced after `<`, it would become `&amp;lt;`. |
| `Columns.IsVisible` | src/helpers.ts:131-132 | Definition of a visible column, with an index past the end read as empty settings; used by `VisibleCount` and `VisibleToColumnIndex`. |
| `Columns.VisibleCount` | src/helpers.ts:131-134 | The number of visible columns among the first n is at most n. It equals n iff all of them are visible, with indices past the end counting as visible. |
| `Columns.VisibleToColumnIndex` | src/helpers.ts:127-138 | For visibleIndex ≥ 0 the loop terminates. It returns the least r whose columns 0..r hold visibleIndex + 1 visible ones. Column r is visible and r ≥ visibleIndex. With no hidden column r = visibleIndex. A negative index gives −1. |
| `NodeText.ObjToText` | src/helpers.ts:107-115 | Definition of `objToText`; its properties are proved in `ObjToTextCases` and `EmptyChildNodes`. |
| `NodeText.ChildrenText` | src/helpers.ts:112 | Definition of the children's joined text; its properties are proved in `ChildrenTextIsMapJoin` and `ChildrenTextAppend`. |
| `NodeText.ObjToTextCases` | src/helpers.ts:107-115 | A `#text` or `#comment` node yields its data. Any other node without `childNodes` yields the empty string. Otherwise the result is its children's texts, mapped and joined in order. |
| `NodeText.ChildrenTextIsMapJoin` | src/helpers.ts:112 | Joining the children's texts one by one equals mapping `objToText` over them and joining with `""`. |
| `NodeText.ChildrenTextAppend` | src/helpers.ts:112 | The text of a concatenation of child lists is the concatenation of their texts. |
| `NodeText.EmptyChildNodes` | src/helpers.ts:111-114 | A non-text node with an empty `childNodes` list yields the empty string, as one without `childNodes` does. |

## Left out

- `isObject` and `isJson` (src/helpers.ts:6-19): they depend on the JavaScript runtime's type tags and on `JSON.parse`.
- `createElement`, `flush` and `paginationListItem` (src/helpers.ts:24-55): DOM construction and `innerHTML` updates.
- The ellipsis item's class string and markup (src/helpers.ts:92-95): DOM formatting. An ellipsis is the constructor `Ellipsis`. Only `classes.paginationListItem`, `classes.ellipsis`, `classes.disabled`, `classes.paginationListItemLink` and `ellipsisText` style it, so they are not modelled. `classes.active` is modelled by the `active` array.
- A `classes` option without an `active` entry (src/helpers.ts:62-63): `classList.remove(undefined)` removes the token "undefined", so the kept items keep their active class. The model always clears the flag.
- JavaScript numbers are modelled as unbounded integers. Fractional or NaN values of `pagerDelta`, `currentPage`, `pagesLength` or `visibleIndex` are not modelled (for example `pagerDelta = 1.5` gives the window c − 1.5 .. c + 1.5), nor is the loss of precision above 2^53.
- Reading page numbers with `parseInt(getAttribute("data-page"))` (src/helpers.ts:86, 88): these DOM reads are modelled by the index-to-page correspondence.
- Items are modelled by page number, so the model does not show that an output page is the same DOM object as the caller's item. Object identity and aliasing of the items are not modelled.
- The regular-expression engine behind `replace`: each global one-character replacement is the function `ReplaceAll` over character sequences.
- The types imported from `./types` are not part of this model. A column has only its `hidden` flag. A node has only `nodeName`, `data` and an optional `childNodes` list.
- Pagination lemmas whose statement needs a sign (`WindowAroundCurrentPage`, `CurrentPageShown`, `TruncatedLength`) ask for a non-negative delta. The source accepts a negative `pagerDelta` and the model's `Truncate` covers that case too.
