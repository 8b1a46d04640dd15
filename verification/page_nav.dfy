/**
 The page navigation bar of the order list: a window of at most five
 consecutive page numbers around the current page, shortcuts to the first
 and last page with ellipses for the pages skipped, and previous/next
 buttons that are disabled at the ends.
 */
module PageNav {
  import opened Results

  const MaxVisible: int := 5

  function Min(a: int, b: int): int { if a <= b then a else b }
  function Max(a: int, b: int): int { if a >= b then a else b }

  /** The first and last page number of the window. */
  datatype Window = Window(start: int, end: int)

  /**
   Centres the window on `page` and shifts it back inside `1..totalPages`
   when it would run past the last page. The bar only computes a window
   when there are at least two pages.
   */
  function PageWindow(page: int, totalPages: int): (w: Window)
    requires totalPages >= 2
    ensures 1 <= w.start <= w.end <= totalPages
    ensures w.end - w.start + 1 == Min(MaxVisible, totalPages)
    ensures w.start <= page <= w.end <==> 1 <= page <= totalPages
  {
    var start := Max(1, page - MaxVisible / 2);
    var end := Min(totalPages, start + MaxVisible - 1);
    if end - start + 1 < MaxVisible then Window(Max(1, end - MaxVisible + 1), end)
    else Window(start, end)
  }

  /** `x` limited to the range `lo..hi`. */
  function Clamp(x: int, lo: int, hi: int): int
    requires lo <= hi
  {
    if x < lo then lo else if x > hi then hi else x
  }

  /**
   The window's first page is the page two before the current one, pulled
   into the range of first pages that leave a full window (or as many pages
   as there are).
   */
  lemma WindowStartIsClampedCentre(page: int, totalPages: int)
    requires totalPages >= 2
    ensures PageWindow(page, totalPages).start == Clamp(page - 2, 1, Max(1, totalPages - 4))
    ensures PageWindow(page, totalPages).end == PageWindow(page, totalPages).start + Min(MaxVisible, totalPages) - 1
  {
  }

  /** When there is room on both sides, the current page is the middle of five. */
  lemma WindowCentred(page: int, totalPages: int)
    requires 3 <= page <= totalPages - 2
    ensures PageWindow(page, totalPages) == Window(page - 2, page + 2)
  {
  }

  /** What the bar renders. */
  datatype Nav = Nav(
    pages: seq<int>,
    showFirst: bool,
    leadingEllipsis: bool,
    showLast: bool,
    trailingEllipsis: bool,
    prevDisabled: bool,
    nextDisabled: bool)

  /**
   Renders the bar for `page` of `totalPages`; nothing is rendered when
   there is at most one page.
   */
  method Render(page: int, totalPages: int) returns (nav: Option<Nav>)
    ensures nav.None? <==> totalPages <= 1
    ensures nav.Some? ==>
      var n := nav.value;
      // the visible pages: min(5, totalPages) consecutive numbers inside 1..totalPages
      && |n.pages| == Min(MaxVisible, totalPages)
      && (forall k :: 0 <= k < |n.pages| ==> n.pages[k] == n.pages[0] + k)
      && 1 <= n.pages[0] && n.pages[|n.pages| - 1] <= totalPages
      // the window starts two pages before the current one, clamped to a full window
      && n.pages[0] == Clamp(page - 2, 1, Max(1, totalPages - 4))
      && (page in n.pages <==> 1 <= page <= totalPages)
      // shortcuts appear for the end pages the window leaves out
      && (n.showFirst <==> 1 !in n.pages)
      && (n.showLast <==> totalPages !in n.pages)
      // an ellipsis stands for at least one hidden page next to a shortcut
      && (n.leadingEllipsis ==> n.showFirst && 2 !in n.pages)
      && (n.trailingEllipsis ==> n.showLast && totalPages - 1 !in n.pages)
      // every page is reachable as a button or lies behind an ellipsis
      && (forall p :: 1 <= p <= totalPages ==>
            || p in n.pages
            || (p == 1 && n.showFirst)
            || (p == totalPages && n.showLast)
            || (n.leadingEllipsis && p < n.pages[0])
            || (n.trailingEllipsis && p > n.pages[|n.pages| - 1]))
      // previous and next are disabled at the ends
      && (n.prevDisabled <==> page <= 1)
      && (n.nextDisabled <==> page >= totalPages)
  {
    if totalPages <= 1 {
      return None;
    }
    var w := PageWindow(page, totalPages);
    WindowStartIsClampedCentre(page, totalPages);
    var pages: seq<int> := [];
    var i := w.start;
    while i <= w.end
      invariant w.start <= i <= w.end + 1
      invariant |pages| == i - w.start
      invariant forall k :: 0 <= k < |pages| ==> pages[k] == w.start + k
    {
      pages := pages + [i];
      i := i + 1;
    }
    assert forall p :: p in pages <==> w.start <= p <= w.end by {
      forall p | w.start <= p <= w.end ensures p in pages {
        assert pages[p - w.start] == p;
      }
    }
    nav := Some(Nav(pages, w.start > 1, w.start > 2, w.end < totalPages, w.end < totalPages - 1,
                    page <= 1, page >= totalPages));
  }
}
