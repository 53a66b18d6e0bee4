/**
 * Properties of the pager truncation algorithm: the kept set, the gap-merge
 * pass on any ascending list of kept pages, and the exact shape and length of
 * the list `truncate` returns.
 */
module PagerProperties {
  import opened Pager

  predicate StrictlyIncreasing(s: seq<int>)
  {
    forall i, j :: 0 <= i < j < |s| ==> s[i] < s[j]
  }

  function Last<T>(s: seq<T>): T
    requires |s| > 0
  {
    s[|s| - 1]
  }

  /** Page numbers grow from left to right, ellipses aside. */
  predicate PagesAscending(links: seq<Link>)
  {
    forall i, j :: 0 <= i < j < |links| && links[i].Page? && links[j].Page? ==> links[i].n < links[j].n
  }

  /** Two pages side by side are consecutive pages. */
  predicate NeighbourPagesConsecutive(links: seq<Link>)
  {
    forall i :: 0 <= i < |links| - 1 && links[i].Page? && links[i + 1].Page? ==> links[i + 1].n == links[i].n + 1
  }

  /** Every ellipsis sits between two pages and stands for at least two hidden pages. */
  predicate EllipsesElideRuns(links: seq<Link>)
  {
    forall i :: 0 <= i < |links| && links[i].Ellipsis? ==>
      0 < i < |links| - 1 && links[i - 1].Page? && links[i + 1].Page? && links[i + 1].n - links[i - 1].n > 2
  }

  // ---------------------------------------------------------------------------
  // The kept set

  /** The collecting loop keeps exactly the kept pages, each once, in ascending order. */
  lemma {:induction false} KeptPages(n: int, pagesLength: int, w: Window)
    ensures StrictlyIncreasing(KeptUpTo(n, pagesLength, w))
    ensures forall k :: k in KeptUpTo(n, pagesLength, w) <==> 1 <= k <= n && IsKept(k, pagesLength, w)
    decreases n
  {
    if n >= 1 {
      KeptPages(n - 1, pagesLength, w);
      var prefix := KeptUpTo(n - 1, pagesLength, w);
      assert forall i :: 0 <= i < |prefix| ==> prefix[i] in prefix;
    }
  }

  // ---------------------------------------------------------------------------
  // The gap-merge pass

  lemma {:induction false} CompressSnoc(s: seq<int>, p: int)
    requires |s| >= 1
    ensures Compress(s + [p]) == Compress(s) + Gap(Last(s), p) + [Page(p)]
  {
    assert (s + [p])[..|s|] == s;
  }

  /** The walk over a concatenation is the walk over each part, joined by the gap between them. */
  lemma {:induction false} CompressAppend(s: seq<int>, t: seq<int>)
    requires |s| >= 1 && |t| >= 1
    ensures Compress(s + t) == Compress(s) + Gap(Last(s), t[0]) + Compress(t)
    decreases |t|
  {
    if |t| == 1 {
      assert s + t == s + [t[0]];
      CompressSnoc(s, t[0]);
    } else {
      var t' := t[..|t| - 1];
      var p := t[|t| - 1];
      assert t == t' + [p] && t[0] == t'[0];
      assert s + t == (s + t') + [p];
      assert Last(s + t') == Last(t');
      var head := Compress(s) + Gap(Last(s), t[0]);
      var middle := Compress(t');
      var step := Gap(Last(t'), p) + [Page(p)];
      CompressAppend(s, t');
      assert Compress(s + t') == head + middle;
      CompressSnoc(s + t', p);
      assert Compress(s + t) == Compress(s + t') + step;
      CompressSnoc(t', p);
      assert Compress(t) == middle + step;
      ConcatAssociative(head, middle, step);
    }
  }

  /** The walk starts with the first kept page, ends with the last, and shows nothing outside them. */
  lemma {:induction false} CompressEnds(s: seq<int>)
    requires |s| >= 1 && StrictlyIncreasing(s)
    ensures var links := Compress(s);
            |links| >= 1 && links[0] == Page(s[0]) && Last(links) == Page(Last(s)) &&
            forall i :: 0 <= i < |links| && links[i].Page? ==> s[0] <= links[i].n <= Last(s)
    decreases |s|
  {
    if |s| >= 2 {
      var s' := s[..|s| - 1];
      CompressEnds(s');
      CompressSnoc(s', Last(s));
      assert s' + [Last(s)] == s;
    }
  }

  /** Appending the gap to a kept page p above every shown page keeps pages ascending. */
  lemma AscendingStep(links: seq<Link>, a: int, p: int)
    requires a < p && PagesAscending(links)
    requires forall i :: 0 <= i < |links| && links[i].Page? ==> links[i].n <= a
    ensures PagesAscending(links + Gap(a, p) + [Page(p)])
  {
    var links' := links + Gap(a, p) + [Page(p)];
    forall i, j | 0 <= i < j < |links'| && links'[i].Page? && links'[j].Page?
      ensures links'[i].n < links'[j].n
    {
      if j < |links| {
        assert links'[i] == links[i] && links'[j] == links[j];
      } else if i < |links| {
        assert links'[i] == links[i];
      }
    }
  }

  lemma NeighbourStep(links: seq<Link>, a: int, p: int)
    requires |links| >= 1 && Last(links) == Page(a) && a < p && NeighbourPagesConsecutive(links)
    ensures NeighbourPagesConsecutive(links + Gap(a, p) + [Page(p)])
  {
    var links' := links + Gap(a, p) + [Page(p)];
    forall i | 0 <= i < |links'| - 1 && links'[i].Page? && links'[i + 1].Page?
      ensures links'[i + 1].n == links'[i].n + 1
    {
      if i + 1 < |links| {
        assert links'[i] == links[i] && links'[i + 1] == links[i + 1];
      }
    }
  }

  lemma EllipsisStep(links: seq<Link>, a: int, p: int)
    requires |links| >= 1 && Last(links) == Page(a) && a < p && EllipsesElideRuns(links)
    ensures EllipsesElideRuns(links + Gap(a, p) + [Page(p)])
  {
    var links' := links + Gap(a, p) + [Page(p)];
    forall i | 0 <= i < |links'| && links'[i].Ellipsis?
      ensures 0 < i < |links'| - 1 && links'[i - 1].Page? && links'[i + 1].Page? && links'[i + 1].n - links'[i - 1].n > 2
    {
      if i < |links| {
        assert links'[i] == links[i];
        assert i < |links| - 1;
        assert links'[i - 1] == links[i - 1] && links'[i + 1] == links[i + 1];
      } else {
        assert i == |links|;
      }
    }
  }

  /** The walk keeps pages in order, puts consecutive pages side by side and lets no ellipsis stand for one page. */
  lemma {:induction false} CompressOrdered(s: seq<int>)
    requires |s| >= 1 && StrictlyIncreasing(s)
    ensures PagesAscending(Compress(s))
    ensures NeighbourPagesConsecutive(Compress(s))
    ensures EllipsesElideRuns(Compress(s))
    decreases |s|
  {
    if |s| >= 2 {
      var s' := s[..|s| - 1];
      var a, p := Last(s'), Last(s);
      CompressOrdered(s');
      CompressEnds(s');
      CompressSnoc(s', p);
      assert s' + [p] == s;
      AscendingStep(Compress(s'), a, p);
      NeighbourStep(Compress(s'), a, p);
      EllipsisStep(Compress(s'), a, p);
    }
  }

  /** Every page of s is shown. */
  predicate ShowsAll(links: seq<Link>, s: seq<int>)
  {
    forall k :: k in s ==> Page(k) in links
  }

  /** A shown page is a page of s, or the one page missing between two pages of s. */
  predicate ShowsKeptOrSkipped(links: seq<Link>, s: seq<int>)
  {
    forall i :: 0 <= i < |links| && links[i].Page? ==>
      links[i].n in s || (links[i].n !in s && links[i].n - 1 in s && links[i].n + 1 in s)
  }

  lemma ContentsStep(links: seq<Link>, s: seq<int>, a: int, p: int)
    requires a in s && a < p && forall k :: k in s ==> k <= a
    requires ShowsAll(links, s) && ShowsKeptOrSkipped(links, s)
    ensures ShowsAll(links + Gap(a, p) + [Page(p)], s + [p])
    ensures ShowsKeptOrSkipped(links + Gap(a, p) + [Page(p)], s + [p])
  {
    var links' := links + Gap(a, p) + [Page(p)];
    forall k | k in s + [p] ensures Page(k) in links' {
      if k != p { assert k in s && Page(k) in links; }
    }
    forall i | 0 <= i < |links'| && links'[i].Page?
      ensures links'[i].n in s + [p] || (links'[i].n !in s + [p] && links'[i].n - 1 in s + [p] && links'[i].n + 1 in s + [p])
    {
      if i < |links| {
        assert links'[i] == links[i];
      } else if i < |links'| - 1 {
        assert links'[i] == Page(a + 1) && p == a + 2;
      }
    }
  }

  /** Every kept page is shown; a shown page that was not kept is the one page between two kept ones. */
  lemma {:induction false} CompressContents(s: seq<int>)
    requires |s| >= 1 && StrictlyIncreasing(s)
    ensures ShowsAll(Compress(s), s)
    ensures ShowsKeptOrSkipped(Compress(s), s)
    decreases |s|
  {
    if |s| >= 2 {
      var s' := s[..|s| - 1];
      var a, p := Last(s'), Last(s);
      CompressContents(s');
      CompressSnoc(s', p);
      assert s' + [p] == s;
      forall k | k in s' ensures k <= a {
        var m :| 0 <= m < |s'| && s'[m] == k;
      }
      ContentsStep(Compress(s'), s', a, p);
    }
  }

  // ---------------------------------------------------------------------------
  // The list truncate returns

  /** The first kept page is page 1 and the last is the last page. */
  lemma KeptEnds(pagesLength: int, w: Window)
    requires pagesLength >= 1
    ensures var kept := KeptUpTo(pagesLength, pagesLength, w);
            |kept| >= 1 && kept[0] == 1 && Last(kept) == pagesLength && StrictlyIncreasing(kept)
  {
    var kept := KeptUpTo(pagesLength, pagesLength, w);
    KeptPages(pagesLength, pagesLength, w);
    assert 1 in kept && pagesLength in kept;
    assert kept[0] in kept && Last(kept) in kept;
    var m :| 0 <= m < |kept| && kept[m] == 1;
    var m' :| 0 <= m' < |kept| && kept[m'] == pagesLength;
    assert m == 0 || kept[0] < kept[m];
    assert m' == |kept| - 1 || kept[m'] < Last(kept);
  }

  /** With no pages there is nothing to show. */
  lemma TruncatedEmpty(currentPage: int, pagesLength: int, delta: int)
    requires pagesLength < 1
    ensures Truncated(currentPage, pagesLength, delta) == []
  {
  }

  /** Page 1 first and the last page last, pages in 1..pagesLength ascending, consecutive when side by side, and every ellipsis between two pages standing for at least two. */
  lemma TruncatedOrdered(currentPage: int, pagesLength: int, delta: int)
    requires pagesLength >= 1
    ensures var links := Truncated(currentPage, pagesLength, delta);
            && |links| >= 1 && links[0] == Page(1) && Last(links) == Page(pagesLength)
            && (forall i :: 0 <= i < |links| && links[i].Page? ==> 1 <= links[i].n <= pagesLength)
            && PagesAscending(links)
            && NeighbourPagesConsecutive(links)
            && EllipsesElideRuns(links)
            && (forall i :: 0 <= i < |links| - 1 ==> !(links[i].Ellipsis? && links[i + 1].Ellipsis?))
  {
    var w := PageWindow(currentPage, pagesLength, delta);
    var kept := KeptUpTo(pagesLength, pagesLength, w);
    KeptEnds(pagesLength, w);
    CompressEnds(kept);
    CompressOrdered(kept);
    var links := Compress(kept);
    forall i | 0 <= i < |links| - 1 ensures !(links[i].Ellipsis? && links[i + 1].Ellipsis?) {
      if links[i].Ellipsis? { assert links[i + 1].Page?; }
    }
  }

  /** Every kept page is shown, and a shown page that is not kept is the single page between two kept pages (its active flag is left alone). */
  lemma TruncatedContents(currentPage: int, pagesLength: int, delta: int)
    requires pagesLength >= 1
    ensures var w := PageWindow(currentPage, pagesLength, delta);
            var links := Truncated(currentPage, pagesLength, delta);
            && (forall k :: IsKept(k, pagesLength, w) ==> Page(k) in links)
            && (forall i :: 0 <= i < |links| && links[i].Page? ==>
                  IsKept(links[i].n, pagesLength, w) ||
                  (!IsKept(links[i].n, pagesLength, w) && IsKept(links[i].n - 1, pagesLength, w) && IsKept(links[i].n + 1, pagesLength, w)))
  {
    var w := PageWindow(currentPage, pagesLength, delta);
    var kept := KeptUpTo(pagesLength, pagesLength, w);
    KeptPages(pagesLength, pagesLength, w);
    KeptEnds(pagesLength, w);
    CompressContents(kept);
  }

  /** For a non-negative delta the window always holds the current page and is at least 2 * delta wide. */
  lemma WindowAroundCurrentPage(currentPage: int, pagesLength: int, delta: int)
    requires delta >= 0
    ensures var w := PageWindow(currentPage, pagesLength, delta);
            w.previousPage <= currentPage <= w.nextPage && w.nextPage - w.previousPage >= 2 * delta
  {
  }

  /**
   * The pins: near the start the window reaches page 3 + 2 * delta, near the
   * end it starts at page pagesLength - 2 - 2 * delta, and the start pin wins
   * when both conditions hold; elsewhere the window is delta pages each side.
   * This is the window formula itself, simplified; what the window guarantees
   * is stated by WindowAroundCurrentPage.
   */
  lemma WindowPinned(currentPage: int, pagesLength: int, delta: int)
    ensures var w := PageWindow(currentPage, pagesLength, delta);
            && (currentPage < 4 + delta ==> w == Window(currentPage - delta, 3 + 2 * delta))
            && (currentPage >= 4 + delta && currentPage > pagesLength - (3 + delta) ==>
                  w == Window(pagesLength - (2 + 2 * delta), currentPage + delta))
            && (4 + delta <= currentPage <= pagesLength - (3 + delta) ==>
                  w == Window(currentPage - delta, currentPage + delta))
  {
  }

  /** The current page, when it is a page at all, is always shown. */
  lemma CurrentPageShown(currentPage: int, pagesLength: int, delta: int)
    requires delta >= 0 && 1 <= currentPage <= pagesLength
    ensures Page(currentPage) in Truncated(currentPage, pagesLength, delta)
  {
    WindowAroundCurrentPage(currentPage, pagesLength, delta);
    TruncatedContents(currentPage, pagesLength, delta);
  }

  // ---------------------------------------------------------------------------
  // The exact shape of the list

  function Min(x: int, y: int): int { if x <= y then x else y }
  function Max(x: int, y: int): int { if x <= y then y else x }

  /** The pages lo..hi. */
  function Range(lo: int, hi: int): (r: seq<int>)
    ensures |r| == if lo <= hi then hi - lo + 1 else 0
    ensures forall i :: 0 <= i < |r| ==> r[i] == lo + i
    decreases hi - lo
  {
    if hi < lo then [] else Range(lo, hi - 1) + [hi]
  }

  lemma RangeMembers(lo: int, hi: int)
    ensures forall k :: k in Range(lo, hi) <==> lo <= k <= hi
  {
    forall k | lo <= k <= hi ensures k in Range(lo, hi) {
      assert Range(lo, hi)[k - lo] == k;
    }
  }

  /** The links of pages lo..hi. */
  function Run(lo: int, hi: int): (r: seq<Link>)
    ensures |r| == if lo <= hi then hi - lo + 1 else 0
    ensures forall i :: 0 <= i < |r| ==> r[i] == Page(lo + i)
    decreases hi - lo
  {
    if hi < lo then [] else Run(lo, hi - 1) + [Page(hi)]
  }

  /** What is shown before the first window page: page 1 and the gap after it. */
  function Leading(first: int): seq<Link>
  {
    if first > 1 then [Page(1)] + Gap(1, first) else []
  }

  /** What is shown after the last window page: the gap before the last page and the last page. */
  function Trailing(last: int, pagesLength: int): seq<Link>
  {
    if last < pagesLength then Gap(last, pagesLength) + [Page(pagesLength)] else []
  }

  lemma {:induction false} CompressRange(lo: int, hi: int)
    requires lo <= hi
    ensures Compress(Range(lo, hi)) == Run(lo, hi)
    decreases hi - lo
  {
    if lo < hi {
      CompressRange(lo, hi - 1);
      CompressSnoc(Range(lo, hi - 1), hi);
    }
  }

  lemma IncreasingConcat(x: seq<int>, y: seq<int>)
    requires StrictlyIncreasing(x) && StrictlyIncreasing(y)
    requires |x| > 0 && |y| > 0 ==> Last(x) < y[0]
    ensures StrictlyIncreasing(x + y)
  {
    var xy := x + y;
    forall i, j | 0 <= i < j < |xy| ensures xy[i] < xy[j] {
      if i < |x| <= j {
        assert xy[i] == x[i] <= Last(x);
        assert y[0] <= y[j - |x|] == xy[j];
      }
    }
  }

  /** Two ascending lists of the same pages are equal. */
  lemma {:induction false} SortedUnique(a: seq<int>, b: seq<int>)
    requires StrictlyIncreasing(a) && StrictlyIncreasing(b)
    requires forall k :: k in a <==> k in b
    ensures a == b
    decreases |a|
  {
    if |a| > 0 {
      assert a[0] in a && a[0] in b;
    }
    if |b| > 0 {
      assert b[0] in b && b[0] in a;
    }
    if |a| > 0 && |b| > 0 {
      var i :| 0 <= i < |b| && b[i] == a[0];
      var j :| 0 <= j < |a| && a[j] == b[0];
      assert b[0] <= b[i] && a[0] <= a[j];
      forall k ensures k in a[1..] <==> k in b[1..] {
        if k in a[1..] {
          var m :| 1 <= m < |a| && a[m] == k;
          assert a[0] < a[m] && k in a;
          var m' :| 0 <= m' < |b| && b[m'] == k;
          assert m' != 0 && b[1..][m' - 1] == k;
        }
        if k in b[1..] {
          var m :| 1 <= m < |b| && b[m] == k;
          assert b[0] < b[m] && k in b;
          var m' :| 0 <= m' < |a| && a[m'] == k;
          assert m' != 0 && a[1..][m' - 1] == k;
        }
      }
      SortedUnique(a[1..], b[1..]);
      assert a == [a[0]] + a[1..] && b == [b[0]] + b[1..];
    }
  }

  /** The pages kept when the window meets 1..pagesLength in first..last. */
  function KeptShape(first: int, last: int, pagesLength: int): seq<int>
  {
    (if first > 1 then [1] else []) + Range(first, last) + (if last < pagesLength then [pagesLength] else [])
  }

  lemma KeptIsShape(pagesLength: int, w: Window, first: int, last: int)
    requires first == Max(w.previousPage, 1) && last == Min(w.nextPage, pagesLength) && first <= last
    ensures KeptUpTo(pagesLength, pagesLength, w) == KeptShape(first, last, pagesLength)
  {
    var head: seq<int> := if first > 1 then [1] else [];
    var tail: seq<int> := if last < pagesLength then [pagesLength] else [];
    var range := Range(first, last);
    KeptPages(pagesLength, pagesLength, w);
    RangeMembers(first, last);
    IncreasingConcat(head, range);
    IncreasingConcat(head + range, tail);
    SortedUnique(KeptUpTo(pagesLength, pagesLength, w), head + range + tail);
  }

  lemma CompressWindowTail(first: int, last: int, pagesLength: int)
    requires 1 <= first <= last <= pagesLength
    ensures Compress(Range(first, last) + (if last < pagesLength then [pagesLength] else [])) ==
            Run(first, last) + Trailing(last, pagesLength)
  {
    CompressRange(first, last);
    if last < pagesLength {
      CompressSnoc(Range(first, last), pagesLength);
    } else {
      assert Range(first, last) + [] == Range(first, last);
    }
  }

  lemma CompressAfterFirst(rest: seq<int>)
    requires |rest| >= 1 && rest[0] > 1
    ensures Compress([1] + rest) == Leading(rest[0]) + Compress(rest)
  {
    CompressAppend([1], rest);
  }

  lemma ConcatAssociative<T>(x: seq<T>, y: seq<T>, z: seq<T>)
    ensures x + (y + z) == x + y + z
  {
  }

  lemma CompressKeptShape(first: int, last: int, pagesLength: int)
    requires 1 <= first <= last <= pagesLength
    ensures Compress(KeptShape(first, last, pagesLength)) == Leading(first) + Run(first, last) + Trailing(last, pagesLength)
  {
    var rest := Range(first, last) + (if last < pagesLength then [pagesLength] else []);
    CompressWindowTail(first, last, pagesLength);
    ConcatAssociative(Leading(first), Run(first, last), Trailing(last, pagesLength));
    if first > 1 {
      assert KeptShape(first, last, pagesLength) == [1] + rest;
      CompressAfterFirst(rest);
    } else {
      assert KeptShape(first, last, pagesLength) == rest;
    }
  }

  /** When the window misses every page only page 1 and the last page are kept. */
  lemma KeptEndsOnly(pagesLength: int, w: Window)
    requires pagesLength >= 1 && Max(w.previousPage, 1) > Min(w.nextPage, pagesLength)
    ensures Compress(KeptUpTo(pagesLength, pagesLength, w)) == Leading(pagesLength) + [Page(pagesLength)]
  {
    var ends: seq<int> := if pagesLength > 1 then [1, pagesLength] else [1];
    KeptPages(pagesLength, pagesLength, w);
    SortedUnique(KeptUpTo(pagesLength, pagesLength, w), ends);
    if pagesLength > 1 {
      assert [1, pagesLength] == [1] + [pagesLength];
      CompressSnoc([1], pagesLength);
    }
  }

  /**
   * The closed form of `truncate`: page 1 and the gap after it, the window
   * pages clipped to 1..pagesLength, the gap before the last page and the last
   * page; when the window misses every page, page 1, one gap and the last page.
   */
  lemma TruncatedShape(currentPage: int, pagesLength: int, delta: int)
    requires pagesLength >= 1
    ensures var w := PageWindow(currentPage, pagesLength, delta);
            var first := Max(w.previousPage, 1);
            var last := Min(w.nextPage, pagesLength);
            Truncated(currentPage, pagesLength, delta) ==
              if first <= last then Leading(first) + Run(first, last) + Trailing(last, pagesLength)
              else Leading(pagesLength) + [Page(pagesLength)]
  {
    var w := PageWindow(currentPage, pagesLength, delta);
    var first := Max(w.previousPage, 1);
    var last := Min(w.nextPage, pagesLength);
    if first <= last {
      KeptIsShape(pagesLength, w, first, last);
      CompressKeptShape(first, last, pagesLength);
    } else {
      KeptEndsOnly(pagesLength, w);
    }
  }

  lemma LeadingLength(first: int)
    requires first >= 1
    ensures |Leading(first)| == Min(first - 1, 2)
  {
  }

  lemma TrailingLength(last: int, pagesLength: int)
    requires last <= pagesLength
    ensures |Trailing(last, pagesLength)| == Min(pagesLength - last, 2)
  {
  }

  /**
   * The window keeps a constant width near the edges: for a non-negative
   * delta, whatever the current page, `truncate` returns min(pagesLength,
   * 2 * delta + 5) elements.
   */
  lemma TruncatedLength(currentPage: int, pagesLength: int, delta: int)
    requires delta >= 0 && pagesLength >= 1
    ensures |Truncated(currentPage, pagesLength, delta)| == Min(pagesLength, 2 * delta + 5)
  {
    var w := PageWindow(currentPage, pagesLength, delta);
    var first := Max(w.previousPage, 1);
    var last := Min(w.nextPage, pagesLength);
    TruncatedShape(currentPage, pagesLength, delta);
    if first <= last {
      LeadingLength(first);
      TrailingLength(last, pagesLength);
    } else {
      LeadingLength(pagesLength);
    }
  }

  lemma RunSplit(lo: int, mid: int, hi: int)
    requires lo <= mid <= hi + 1
    ensures Run(lo, mid - 1) + Run(mid, hi) == Run(lo, hi)
  {
    var joined := Run(lo, mid - 1) + Run(mid, hi);
    assert forall i :: 0 <= i < |joined| ==> joined[i] == Page(lo + i);
  }

  lemma LeadingIsRun(first: int)
    requires 1 <= first <= 3
    ensures Leading(first) == Run(1, first - 1)
  {
  }

  /** When the pinned window reaches both ends every page is shown and no ellipsis is. */
  lemma WholeRange(currentPage: int, pagesLength: int, delta: int)
    requires 1 <= pagesLength <= 3 + 2 * delta
    ensures Truncated(currentPage, pagesLength, delta) == Run(1, pagesLength)
  {
    var w := PageWindow(currentPage, pagesLength, delta);
    var first := Max(w.previousPage, 1);
    var last := Min(w.nextPage, pagesLength);
    TruncatedShape(currentPage, pagesLength, delta);
    if first <= last {
      assert first <= 3 && last == pagesLength;
      LeadingIsRun(first);
      RunSplit(1, first, pagesLength);
    } else {
      assert pagesLength <= 2;
      LeadingIsRun(pagesLength);
    }
  }

  // ---------------------------------------------------------------------------
  // Worked cases with the default delta of 2

  /** Five pages around page 3: all five pages. */
  lemma FivePagesAllShown()
    ensures Truncated(3, 5, DefaultPagerDelta) == [Page(1), Page(2), Page(3), Page(4), Page(5)]
  {
    WholeRange(3, 5, DefaultPagerDelta);
  }

  /** Twenty pages on page 1: the window is pinned to pages 1..7. */
  lemma TwentyPagesAtStart()
    ensures Truncated(1, 20, DefaultPagerDelta) ==
            [Page(1), Page(2), Page(3), Page(4), Page(5), Page(6), Page(7), Ellipsis, Page(20)]
  {
    TruncatedShape(1, 20, DefaultPagerDelta);
  }

  /** Twenty pages on page 20: the window is pinned to pages 14..20. */
  lemma TwentyPagesAtEnd()
    ensures Truncated(20, 20, DefaultPagerDelta) ==
            [Page(1), Ellipsis, Page(14), Page(15), Page(16), Page(17), Page(18), Page(19), Page(20)]
  {
    TruncatedShape(20, 20, DefaultPagerDelta);
  }

  /** Twenty pages on page 10: ellipses on both sides of pages 8..12. */
  lemma TwentyPagesInMiddle()
    ensures Truncated(10, 20, DefaultPagerDelta) ==
            [Page(1), Ellipsis, Page(8), Page(9), Page(10), Page(11), Page(12), Ellipsis, Page(20)]
  {
    TruncatedShape(10, 20, DefaultPagerDelta);
  }

  /** Ten pages on page 5: the window is pinned to pages 3..7 and page 2, the single page before it, is shown instead of an ellipsis. */
  lemma TenPagesSkippedPageInlined()
    ensures Truncated(5, 10, DefaultPagerDelta) ==
            [Page(1), Page(2), Page(3), Page(4), Page(5), Page(6), Page(7), Ellipsis, Page(10)]
  {
    TruncatedShape(5, 10, DefaultPagerDelta);
  }
}
