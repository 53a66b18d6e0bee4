/**
 * The pager truncation algorithm of src/helpers.ts (`truncate`).
 *
 * The caller hands over one pagination list item per page; the item at index
 * i is the button of page i + 1 (the correspondence its `data-page` attribute
 * records).  An item is modelled by its page number, and the only state of an
 * item the algorithm changes, whether it carries the "active" class, is an
 * array of flags indexed like the items.  The result is the ordered list of
 * elements to render: existing page items and freshly built ellipsis items.
 */
module Pager {
  import opened Wrappers

  /** One element of the truncated list: the caller's item of page n, or a new ellipsis item. */
  datatype Link = Page(n: int) | Ellipsis

  /** The window [previousPage, nextPage] of pages kept around the current page. */
  datatype Window = Window(previousPage: int, nextPage: int)

  /** The half-width used when the option is absent or zero. */
  const DefaultPagerDelta := 2

  /** `options.pagerDelta || 2`: an absent or zero option falls back to the default. */
  function PagerDelta(option: Option<int>): (delta: int)
    ensures delta != 0
    ensures option.Some? && option.value != 0 ==> delta == option.value
    ensures option.None? || option.value == 0 ==> delta == DefaultPagerDelta
  {
    if option.Some? && option.value != 0 then option.value else DefaultPagerDelta
  }

  /** The window around currentPage, pinned to the first or to the last pages near the edges. */
  function PageWindow(currentPage: int, pagesLength: int, delta: int): Window
  {
    var doubleDelta := 2 * delta;
    if currentPage < 4 - delta + doubleDelta then
      Window(currentPage - delta, 3 + doubleDelta)
    else if currentPage > pagesLength - (3 - delta + doubleDelta) then
      Window(pagesLength - (2 + doubleDelta), currentPage + delta)
    else
      Window(currentPage - delta, currentPage + delta)
  }

  /** Page k is kept: the first page, the last page, or a page of the window. */
  predicate IsKept(k: int, pagesLength: int, w: Window)
  {
    1 <= k <= pagesLength && (k == 1 || k == pagesLength || w.previousPage <= k <= w.nextPage)
  }

  /** The kept pages among 1..n, in the order the collecting loop pushes them. */
  function KeptUpTo(n: int, pagesLength: int, w: Window): seq<int>
    decreases n
  {
    if n < 1 then [] else KeptUpTo(n - 1, pagesLength, w) + (if IsKept(n, pagesLength, w) then [n] else [])
  }

  /** What is pushed between two consecutive kept pages: the one skipped page, an ellipsis, or nothing. */
  function Gap(previousPageNumber: int, pageNumber: int): seq<Link>
  {
    if pageNumber - previousPageNumber == 2 then [Page(previousPageNumber + 1)]
    else if pageNumber - previousPageNumber != 1 then [Ellipsis]
    else []
  }

  /** The gap-merge pass over the kept pages, in the order the walk pushes its elements. */
  function Compress(kept: seq<int>): seq<Link>
  {
    if |kept| == 0 then []
    else if |kept| == 1 then [Page(kept[0])]
    else Compress(kept[..|kept| - 1]) + Gap(kept[|kept| - 2], kept[|kept| - 1]) + [Page(kept[|kept| - 1])]
  }

  /** The list `truncate` returns. */
  function Truncated(currentPage: int, pagesLength: int, delta: int): seq<Link>
  {
    var w := PageWindow(currentPage, pagesLength, delta);
    Compress(KeptUpTo(pagesLength, pagesLength, w))
  }

  /**
   * `truncate`: clears the active flag of every kept item and returns the
   * truncated list.
   */
  method Truncate(active: array<bool>, currentPage: int, pagesLength: int, pagerDeltaOption: Option<int>)
    returns (modifiedLinks: seq<Link>)
    requires pagesLength <= active.Length
    modifies active
    ensures modifiedLinks == Truncated(currentPage, pagesLength, PagerDelta(pagerDeltaOption))
    ensures var w := PageWindow(currentPage, pagesLength, PagerDelta(pagerDeltaOption));
            forall i :: 0 <= i < active.Length ==> active[i] == (old(active[i]) && !IsKept(i + 1, pagesLength, w))
  {
    var pagerDelta := PagerDelta(pagerDeltaOption);
    var doublePagerDelta := 2 * pagerDelta;
    var previousPage := currentPage - pagerDelta;
    var nextPage := currentPage + pagerDelta;
    if currentPage < 4 - pagerDelta + doublePagerDelta {
      nextPage := 3 + doublePagerDelta;
    } else if currentPage > pagesLength - (3 - pagerDelta + doublePagerDelta) {
      previousPage := pagesLength - (2 + doublePagerDelta);
    }
    var w := Window(previousPage, nextPage);
    assert w == PageWindow(currentPage, pagesLength, pagerDelta);

    var itemsToModify := CollectKept(active, pagesLength, w);
    modifiedLinks := MergeGaps(itemsToModify);
  }

  /** The collecting loop of `truncate`: pushes every kept page, in order, and
      clears the "active" flag of its item. */
  method CollectKept(active: array<bool>, pagesLength: int, w: Window) returns (itemsToModify: seq<int>)
    requires pagesLength <= active.Length
    modifies active
    ensures itemsToModify == KeptUpTo(pagesLength, pagesLength, w)
    ensures forall i :: 0 <= i < active.Length ==> active[i] == (old(active[i]) && !IsKept(i + 1, pagesLength, w))
  {
    itemsToModify := [];
    var k := 1;
    while k <= pagesLength
      invariant 1 <= k <= if pagesLength >= 1 then pagesLength + 1 else 1
      invariant itemsToModify == KeptUpTo(k - 1, pagesLength, w)
      invariant forall i :: 0 <= i < active.Length ==>
                  active[i] == (old(active[i]) && !(i + 1 < k && IsKept(i + 1, pagesLength, w)))
    {
      if 1 == k || k == pagesLength || (k >= w.previousPage && k <= w.nextPage) {
        active[k - 1] := false;
        itemsToModify := itemsToModify + [k];
      }
      k := k + 1;
    }
    assert pagesLength < 1 ==> KeptUpTo(pagesLength, pagesLength, w) == [];
  }

  /** The gap-merging pass of `truncate` over the kept pages. */
  method MergeGaps(itemsToModify: seq<int>) returns (modifiedLinks: seq<Link>)
    ensures modifiedLinks == Compress(itemsToModify)
  {
    var previousLink: Option<int> := None;
    modifiedLinks := [];
    for j := 0 to |itemsToModify|
      invariant modifiedLinks == Compress(itemsToModify[..j])
      invariant previousLink == if j == 0 then None else Some(itemsToModify[j - 1])
    {
      var pageNumber := itemsToModify[j];
      if previousLink.Some? {
        var previousPageNumber := previousLink.value;
        if pageNumber - previousPageNumber == 2 {
          // the item at index previousPageNumber is the button of page previousPageNumber + 1
          modifiedLinks := modifiedLinks + [Page(previousPageNumber + 1)];
        } else if pageNumber - previousPageNumber != 1 {
          modifiedLinks := modifiedLinks + [Ellipsis];
        }
      }
      modifiedLinks := modifiedLinks + [Page(pageNumber)];
      previousLink := Some(pageNumber);
      assert itemsToModify[..j + 1][..j] == itemsToModify[..j];
    }
    assert itemsToModify[..|itemsToModify|] == itemsToModify;
  }
}
