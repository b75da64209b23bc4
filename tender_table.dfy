/** The tender table: the procurement-level badge, the sort icon of a column header, and
    the pagination bar with its window of page numbers. */
module TenderTable {
  import opened Common
  import opened Tenders
  import opened TenderListClient

  // ---------------------------------------------------------------------------
  // Badges and icons

  datatype Badge = Unclassified | Huge | AboveAudit | Level(text: string)

  /** The level badge: 未分類 for no level, 巨額 for exactly that level, 查核金額以上 for
      any level mentioning 查核金額, and the level itself otherwise. */
  function LevelBadge(level: Option<string>): (b: Badge)
    ensures b == Unclassified <==> !Truthy(level)
    ensures b == Huge <==> level == Some("巨額")
    ensures b == AboveAudit <==> Truthy(level) && level != Some("巨額") && Contains(level.value, "查核金額")
    ensures b.Level? <==> Truthy(level) && level != Some("巨額") && !Contains(level.value, "查核金額")
    ensures b.Level? ==> b.text == level.value
  {
    if !Truthy(level) then Unclassified
    else if level.value == "巨額" then Huge
    else if Contains(level.value, "查核金額") then AboveAudit
    else Level(level.value)
  }

  datatype Icon = Neutral | Up | Down

  /** A column's icon: neutral unless the table is sorted on it, then the direction. */
  function SortIcon(column: SortKey, config: SortConfig): (i: Icon)
    ensures i == Neutral <==> config.key != column
    ensures i == Up <==> config.key == column && config.direction == Asc
    ensures i == Down <==> config.key == column && config.direction == Desc
  {
    if config.key != column then Neutral
    else match config.direction
      case Asc => Up
      case Desc => Down
  }

  /** Clicking a header and then reading its icon: the icon shows the new direction. */
  lemma IconAfterClick(prev: SortConfig, column: SortKey)
    ensures SortIcon(column, NextSort(prev, column)) == if prev.key == column && prev.direction == Asc then Down else Up
  {
  }

  // ---------------------------------------------------------------------------
  // Pagination

  const ShowPages: int := 5

  datatype PageItem = Page(number: int) | EllipsisStart | EllipsisEnd

  /** The window of consecutive page numbers: centred on the current page when it can be,
      moved to stay inside 1..totalPages. */
  function Window(current: int, totalPages: int): (w: (int, int))
    requires totalPages >= 2
    ensures 1 <= w.0 <= w.1 <= totalPages
    ensures w.1 - w.0 + 1 == if totalPages < ShowPages then totalPages else ShowPages
    ensures 1 <= current <= totalPages ==> w.0 <= current <= w.1
  {
    var start := if current - ShowPages / 2 > 1 then current - ShowPages / 2 else 1;
    var end := if start + ShowPages - 1 < totalPages then start + ShowPages - 1 else totalPages;
    var start' := if end - start + 1 < ShowPages then (if end - ShowPages + 1 > 1 then end - ShowPages + 1 else 1) else start;
    (start', end)
  }

  /** The pages from `a` to `b`. */
  function Run(a: int, b: int): (r: seq<PageItem>)
    ensures |r| == if b < a then 0 else b - a + 1
    ensures forall k :: 0 <= k < |r| ==> r[k] == Page(a + k)
  {
    if b < a then [] else seq(b - a + 1, k => Page(a + k))
  }

  /** What comes before the window: page 1 and, past page 2, an ellipsis. */
  function Head(start: int): seq<PageItem> {
    if start > 1 then [Page(1)] + (if start > 2 then [EllipsisStart] else []) else []
  }

  /** What comes after the window: an ellipsis when pages are skipped, and the last page. */
  function Tail(end: int, totalPages: int): seq<PageItem> {
    if end < totalPages then (if end < totalPages - 1 then [EllipsisEnd] else []) + [Page(totalPages)] else []
  }

  function PageItems(current: int, totalPages: int): seq<PageItem>
    requires totalPages >= 2
  {
    var w := Window(current, totalPages);
    Head(w.0) + Run(w.0, w.1) + Tail(w.1, totalPages)
  }

  lemma RunStep(a: int, b: int)
    requires a <= b
    ensures Run(a, b) == Run(a, b - 1) + [Page(b)]
  {
  }

  /** `getPageNumbers`, run only when there is more than one page. */
  method PageNumbers(current: int, totalPages: int) returns (pages: seq<PageItem>)
    requires totalPages >= 2
    ensures pages == PageItems(current, totalPages)
  {
    var start := if 1 > current - ShowPages / 2 then 1 else current - ShowPages / 2;
    var end := if totalPages < start + ShowPages - 1 then totalPages else start + ShowPages - 1;
    if end - start + 1 < ShowPages {
      start := if 1 > end - ShowPages + 1 then 1 else end - ShowPages + 1;
    }
    assert (start, end) == Window(current, totalPages);
    var head: seq<PageItem> := [];
    if start > 1 {
      head := head + [Page(1)];
      if start > 2 {
        head := head + [EllipsisStart];
      }
    }
    assert head == Head(start);
    var run: seq<PageItem> := [];
    var i := start;
    while i <= end
      invariant start <= i <= end + 1
      invariant run == Run(start, i - 1)
    {
      RunStep(start, i);
      run := run + [Page(i)];
      i := i + 1;
    }
    var tail: seq<PageItem> := [];
    if end < totalPages {
      if end < totalPages - 1 {
        tail := tail + [EllipsisEnd];
      }
      tail := tail + [Page(totalPages)];
    }
    assert tail == Tail(end, totalPages);
    pages := head + run + tail;
  }

  /** The page numbers of a list rise strictly. */
  predicate Ascending(r: seq<PageItem>) {
    forall i, j :: 0 <= i < j < |r| && r[i].Page? && r[j].Page? ==> r[i].number < r[j].number
  }

  /** Every page number of a list lies within lo..hi. */
  predicate PagesWithin(r: seq<PageItem>, lo: int, hi: int) {
    forall i :: 0 <= i < |r| && r[i].Page? ==> lo <= r[i].number <= hi
  }

  lemma {:induction false} AscendingConcat(a: seq<PageItem>, b: seq<PageItem>, m: int)
    requires Ascending(a) && Ascending(b)
    requires forall i :: 0 <= i < |a| && a[i].Page? ==> a[i].number < m
    requires forall i :: 0 <= i < |b| && b[i].Page? ==> m <= b[i].number
    ensures Ascending(a + b)
  {
    var r := a + b;
    forall i, j | 0 <= i < j < |r| && r[i].Page? && r[j].Page? ensures r[i].number < r[j].number {
      if j < |a| {
        assert r[i] == a[i] && r[j] == a[j];
      } else if i < |a| {
        assert r[i] == a[i] && r[j] == b[j - |a|];
      } else {
        assert r[i] == b[i - |a|] && r[j] == b[j - |a|];
      }
    }
  }

  lemma {:induction false} WithinConcat(a: seq<PageItem>, b: seq<PageItem>, lo: int, hi: int)
    requires PagesWithin(a, lo, hi) && PagesWithin(b, lo, hi)
    ensures PagesWithin(a + b, lo, hi)
  {
    var r := a + b;
    forall i | 0 <= i < |r| && r[i].Page? ensures lo <= r[i].number <= hi {
      if i < |a| {
        assert r[i] == a[i];
      } else {
        assert r[i] == b[i - |a|];
      }
    }
  }

  /** Page numbers rise strictly through the list and stay within 1..totalPages. */
  lemma PageItemsOrdered(current: int, totalPages: int)
    requires totalPages >= 2
    ensures Ascending(PageItems(current, totalPages))
    ensures PagesWithin(PageItems(current, totalPages), 1, totalPages)
  {
    var w := Window(current, totalPages);
    var h, run, t := Head(w.0), Run(w.0, w.1), Tail(w.1, totalPages);
    assert PageItems(current, totalPages) == (h + run) + t;
    AscendingConcat(h, run, w.0);
    AscendingConcat(h + run, t, w.1 + 1);
    WithinConcat(h, run, 1, totalPages);
    WithinConcat(h + run, t, 1, totalPages);
  }

  /** The list begins with page 1 and ends with the last page. */
  lemma PageItemsEnds(current: int, totalPages: int)
    requires totalPages >= 2
    ensures var r := PageItems(current, totalPages);
      r != [] && r[0] == Page(1) && r[|r| - 1] == Page(totalPages)
  {
    var w := Window(current, totalPages);
    var h, run, t := Head(w.0), Run(w.0, w.1), Tail(w.1, totalPages);
    var r := h + run + t;
    assert r == PageItems(current, totalPages);
    assert r[0] == if h != [] then h[0] else run[0];
    assert r[|r| - 1] == if t != [] then t[|t| - 1] else run[|run| - 1];
  }

  /** The current page, when it exists, is always shown. */
  lemma PageItemsShowCurrent(current: int, totalPages: int)
    requires totalPages >= 2 && 1 <= current <= totalPages
    ensures Page(current) in PageItems(current, totalPages)
  {
    var w := Window(current, totalPages);
    var h, run, t := Head(w.0), Run(w.0, w.1), Tail(w.1, totalPages);
    var r := h + run + t;
    assert r == PageItems(current, totalPages);
    assert r[|h| + (current - w.0)] == run[current - w.0];
  }

  /** Each ellipsis appears exactly when pages are skipped on its side of the window. */
  lemma PageItemsEllipses(current: int, totalPages: int)
    requires totalPages >= 2
    ensures EllipsisStart in PageItems(current, totalPages) <==> Window(current, totalPages).0 > 2
    ensures EllipsisEnd in PageItems(current, totalPages) <==> Window(current, totalPages).1 < totalPages - 1
  {
    var w := Window(current, totalPages);
    var h, run, t := Head(w.0), Run(w.0, w.1), Tail(w.1, totalPages);
    var r := h + run + t;
    assert r == PageItems(current, totalPages);
    assert EllipsisStart !in run && EllipsisStart !in t;
    assert EllipsisEnd !in h && EllipsisEnd !in run;
    assert EllipsisStart in r <==> EllipsisStart in h;
    assert EllipsisEnd in r <==> EllipsisEnd in t;
  }

  /** No pagination bar is shown for a single page or none. */
  function Pagination(current: int, totalPages: int): (r: Option<seq<PageItem>>)
    ensures r.None? <==> totalPages <= 1
    ensures r.Some? ==> r.value == PageItems(current, totalPages)
  {
    if totalPages <= 1 then None else Some(PageItems(current, totalPages))
  }

  /** The previous button: one page back, never below page 1. */
  function PreviousPage(current: int): (p: int)
    ensures p >= 1 && p <= if current > 1 then current else 1
    ensures current > 1 ==> p == current - 1
  {
    if current - 1 > 1 then current - 1 else 1
  }

  /** The next button: one page on, never past the last page. */
  function NextPage(current: int, totalPages: int): (p: int)
    ensures p <= totalPages
    ensures current < totalPages ==> p == current + 1
    ensures current >= totalPages ==> p == totalPages
  {
    if totalPages < current + 1 then totalPages else current + 1
  }

  /** From a page in range, both buttons lead to a page in range, so the table never
      passes the list a page below 1. */
  lemma ButtonsStayInRange(current: int, totalPages: int)
    requires 1 <= current <= totalPages
    ensures 1 <= PreviousPage(current) <= totalPages
    ensures 1 <= NextPage(current, totalPages) <= totalPages
  {
  }
}
