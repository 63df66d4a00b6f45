/** Page arithmetic of the list views and the three ways they draw a page
    bar: the article list and category pages (first, last and current ±1,
    with ellipses), the article-management table (a sliding window of five
    buttons) and the projects page (a show/ellipsis decision per page).
    Also the navigation guards, the page-reset effects, page slices, row
    serial numbers, "Showing a-b of n" ranges and the retry back-off. */
module Pagination {
  import opened Common

  /** One entry of a rendered page bar: a numbered button or an ellipsis. */
  datatype PageItem = Num(n: int) | Dots

  /** Page `q` has a numbered button somewhere in `bar`. */
  predicate Shows(bar: seq<PageItem>, q: int) {
    exists k :: 0 <= k < |bar| && bar[k] == Num(q)
  }

  /** Numbered entries strictly increase from left to right, so no page
      has two buttons. */
  predicate Ascending(bar: seq<PageItem>) {
    forall i, j :: 0 <= i < j < |bar| && bar[i].Num? && bar[j].Num? ==> bar[i].n < bar[j].n
  }

  // ---------------------------------------------------------------------
  // Article list and category pages: 1 … p-1 p p+1 … T
  // ---------------------------------------------------------------------

  /** First page of the middle run (`startPage`). */
  function WindowStart(p: int): int { Max(2, p - 1) }

  /** Last page of the middle run (`endPage`). */
  function WindowEnd(p: int, total: int): int { Min(total - 1, p + 1) }

  /** Numbered buttons for the pages `lo..hi`, none when `lo > hi`. */
  function Buttons(lo: int, hi: int): (r: seq<PageItem>)
    ensures |r| == if lo <= hi then hi - lo + 1 else 0
    ensures forall k :: 0 <= k < |r| ==> r[k] == Num(lo + k)
  {
    if lo <= hi then seq(hi - lo + 1, k => Num(lo + k)) else []
  }

  /** `renderPageNumbers` for current page `p` of `total` (the empty bar
      stands for `null`). */
  function PageBar(p: int, total: int): (bar: seq<PageItem>)
    ensures bar == [] <==> total <= 1
    ensures total > 1 ==> bar[0] == Num(1) && bar[|bar| - 1] == Num(total)
  {
    if total <= 1 then []
    else
      var lo := WindowStart(p);
      var hi := WindowEnd(p, total);
      [Num(1)] + (if lo > 2 then [Dots] else []) + Buttons(lo, hi)
        + (if hi < total - 1 then [Dots] else []) + [Num(total)]
  }

  /** Entry `k` of the bar, read off position by position. */
  lemma {:induction false} PageBarAt(p: int, total: int, k: int)
    requires total > 1
    requires 0 <= k < |PageBar(p, total)|
    ensures var lo, hi := WindowStart(p), WindowEnd(p, total);
            var d := if lo > 2 then 1 else 0;
            var m := |Buttons(lo, hi)|;
            && |PageBar(p, total)| == 2 + d + m + (if hi < total - 1 then 1 else 0)
            && (k == 0 ==> PageBar(p, total)[k] == Num(1))
            && (0 < k < 1 + d ==> PageBar(p, total)[k] == Dots)
            && (1 + d <= k < 1 + d + m ==> PageBar(p, total)[k] == Num(lo + k - 1 - d))
            && (1 + d + m <= k < |PageBar(p, total)| - 1 ==> PageBar(p, total)[k] == Dots)
            && (k == |PageBar(p, total)| - 1 ==> PageBar(p, total)[k] == Num(total))
  {
    var lo, hi := WindowStart(p), WindowEnd(p, total);
    var a: seq<PageItem> := [Num(1)] + (if lo > 2 then [Dots] else []);
    var b := a + Buttons(lo, hi);
    var c := b + (if hi < total - 1 then [Dots] else []);
    assert PageBar(p, total) == c + [Num(total)];
    if k < |a| {
      assert PageBar(p, total)[k] == a[k];
    } else if k < |b| {
      assert PageBar(p, total)[k] == b[k] == Buttons(lo, hi)[k - |a|];
    } else if k < |c| {
      assert PageBar(p, total)[k] == c[k];
    }
  }

  /** The pages with a button are exactly the first, the last, and those in
      `max(2, p-1)..min(T-1, p+1)`; in particular every page shown lies in
      {1, T, p-1, p, p+1}. */
  lemma {:induction false} PageBarPages(p: int, total: int)
    requires total > 1
    ensures forall q :: Shows(PageBar(p, total), q) <==>
              q == 1 || q == total || WindowStart(p) <= q <= WindowEnd(p, total)
  {
    var bar := PageBar(p, total);
    var lo, hi := WindowStart(p), WindowEnd(p, total);
    var d := if lo > 2 then 1 else 0;
    forall q | Shows(bar, q)
      ensures q == 1 || q == total || lo <= q <= hi
    {
      var k :| 0 <= k < |bar| && bar[k] == Num(q);
      PageBarAt(p, total, k);
    }
    forall q | q == 1 || q == total || lo <= q <= hi
      ensures Shows(bar, q)
    {
      PageBarAt(p, total, 0);
      PageBarAt(p, total, |bar| - 1);
      if q != 1 && q != total {
        var k := q - lo + 1 + d;
        PageBarAt(p, total, k);
        assert bar[k] == Num(q);
      }
    }
  }

  /** Button numbers strictly increase along the bar. */
  lemma {:induction false} PageBarAscending(p: int, total: int)
    ensures Ascending(PageBar(p, total))
  {
    var bar := PageBar(p, total);
    forall i, j | 0 <= i < j < |bar| && bar[i].Num? && bar[j].Num?
      ensures bar[i].n < bar[j].n
    {
      PageBarAt(p, total, i);
      PageBarAt(p, total, j);
    }
  }

  /** A leading ellipsis appears iff `startPage > 2`, a trailing one iff
      `endPage < T-1`, and there are no others. */
  lemma {:induction false} PageBarDots(p: int, total: int)
    requires 1 <= p <= total
    requires total > 1
    ensures var bar := PageBar(p, total);
            && (bar[1] == Dots <==> WindowStart(p) > 2)
            && (bar[|bar| - 2] == Dots <==> WindowEnd(p, total) < total - 1)
            && forall k :: 0 <= k < |bar| && bar[k] == Dots ==> k == 1 || k == |bar| - 2
  {
    var bar := PageBar(p, total);
    PageBarAt(p, total, 1);
    PageBarAt(p, total, |bar| - 2);
    forall k | 0 <= k < |bar| && bar[k] == Dots
      ensures k == 1 || k == |bar| - 2
    {
      PageBarAt(p, total, k);
    }
  }

  /** For a current page in range, its button appears exactly once (so it
      is the only active button). */
  lemma {:induction false} PageBarCurrentOnce(p: int, total: int)
    requires 1 <= p <= total
    requires total > 1
    ensures Shows(PageBar(p, total), p)
    ensures forall i, j ::
              (0 <= i < |PageBar(p, total)| && 0 <= j < |PageBar(p, total)|
               && PageBar(p, total)[i] == Num(p) && PageBar(p, total)[j] == Num(p)) ==> i == j
  {
    PageBarPages(p, total);
    PageBarAscending(p, total);
  }

  // ---------------------------------------------------------------------
  // Navigation on the article list and category pages
  // ---------------------------------------------------------------------

  datatype NavEvent = Previous | Next | Click(n: int)

  /** `handlePrevious`, `handleNext` and `handlePageClick`. */
  function Navigate(p: int, total: int, e: NavEvent): (r: int)
    ensures 1 <= p <= total ==> 1 <= r <= total
    ensures e.Previous? ==> (r != p <==> p > 1)
    ensures e.Next? ==> (r != p <==> p < total)
    ensures e.Click? ==> (r == e.n <==> 1 <= e.n <= total || e.n == p)
    ensures r != p ==> r == p - 1 || r == p + 1 || e.Click?
  {
    match e
    case Previous => if p > 1 then Max(1, p - 1) else p
    case Next => if p < total then Min(total, p + 1) else p
    case Click(n) => if 1 <= n <= total then n else p
  }

  /** Previous undoes Next and Next undoes Previous, away from the ends. */
  lemma {:induction false} PreviousNextInverse(p: int, total: int)
    requires 1 <= p <= total
    ensures p < total ==> Navigate(Navigate(p, total, Next), total, Previous) == p
    ensures p > 1 ==> Navigate(Navigate(p, total, Previous), total, Next) == p
  {
  }

  /** `PageButton`'s label: a number, `NaN`, or a value of another type. */
  datatype Label = Number(n: int) | NaN | NotNumber

  /** `safePageNumber`: the label itself when it is a number other than NaN,
      else 1. */
  function SafePageNumber(l: Label): (r: int)
  {
    if l.Number? then l.n else 1
  }

  /** A button whose label is not a usable number sends the user to page 1,
      and no button can move the page out of range. */
  lemma {:induction false} ButtonClick(p: int, total: int, l: Label)
    requires 1 <= p <= total
    ensures 1 <= Navigate(p, total, Click(SafePageNumber(l))) <= total
    ensures !l.Number? ==> Navigate(p, total, Click(SafePageNumber(l))) == 1
    ensures l.Number? && 1 <= l.n <= total ==> Navigate(p, total, Click(SafePageNumber(l))) == l.n
  {
  }

  /** State of a paged article view: the current page, the page count the
      server last reported, and the category shown (empty on the plain list). */
  datatype ListView = ListView(page: int, totalPages: nat, category: String)

  datatype ListEvent =
    | Nav(e: NavEvent)
    | Loaded(totalPages: nat)      // a response arrives; the reset effect runs
    | CategoryChanged(c: String)   // the route's category parameter changes

  /** The page-reset effect: back to page 1 when the page is beyond a known
      last page. */
  function ResetBeyondLast(p: int, total: nat): (r: int)
    ensures total > 0 && p >= 1 ==> 1 <= r <= total
    ensures r != p ==> r == 1 && total > 0 && p > total
  {
    if total > 0 && p > total then 1 else p
  }

  function ListStep(v: ListView, ev: ListEvent): (r: ListView)
  {
    match ev
    case Nav(e) => v.(page := Navigate(v.page, v.totalPages, e))
    case Loaded(t) => v.(totalPages := t, page := ResetBeyondLast(v.page, t))
    case CategoryChanged(c) => v.(category := c, page := 1)
  }

  function ListRun(v: ListView, evs: seq<ListEvent>): (r: ListView)
    decreases |evs|
  {
    if |evs| == 0 then v else ListRun(ListStep(v, evs[0]), evs[1..])
  }

  /** The page is at least 1 and, once a page count is known, at most that
      count. */
  predicate PageInRange(v: ListView) {
    1 <= v.page && (v.totalPages > 0 ==> v.page <= v.totalPages)
  }

  /** Every event keeps the page in range; a category change always shows
      page 1. */
  lemma {:induction false} ListStepInRange(v: ListView, ev: ListEvent)
    requires PageInRange(v)
    ensures PageInRange(ListStep(v, ev))
    ensures ev.CategoryChanged? ==> ListStep(v, ev).page == 1
  {
  }

  /** Starting on page 1, no sequence of loads, clicks and category changes
      leaves the valid range. */
  lemma {:induction false} ListRunInRange(v: ListView, evs: seq<ListEvent>)
    requires PageInRange(v)
    ensures PageInRange(ListRun(v, evs))
    decreases |evs|
  {
    if |evs| > 0 {
      ListStepInRange(v, evs[0]);
      ListRunInRange(ListStep(v, evs[0]), evs[1..]);
    }
  }

  // ---------------------------------------------------------------------
  // Retry back-off
  // ---------------------------------------------------------------------

  function Pow2(i: nat): (r: nat)
    ensures r >= 1
  {
    if i == 0 then 1 else 2 * Pow2(i - 1)
  }

  lemma {:induction false} Pow2Monotone(i: nat, j: nat)
    requires i <= j
    ensures Pow2(i) <= Pow2(j)
    decreases j
  {
    if i < j {
      Pow2Monotone(i, j - 1);
    }
  }

  /** `retryDelay`: `min(1000 * 2^attempt, 30000)` milliseconds. */
  function RetryDelay(attempt: nat): (ms: nat)
    ensures 1000 <= ms <= 30000
  {
    Min(1000 * Pow2(attempt), 30000)
  }

  /** The delay never shrinks from one attempt to the next, and from the
      fifth attempt on it sits at the 30-second cap. */
  lemma {:induction false} RetryDelayGrows(i: nat, j: nat)
    requires i <= j
    ensures RetryDelay(i) <= RetryDelay(j)
    ensures i >= 5 ==> RetryDelay(i) == 30000
  {
    Pow2Monotone(i, j);
    if i >= 5 {
      Pow2Monotone(5, i);
      assert Pow2(5) == 32;
    }
  }

  // ---------------------------------------------------------------------
  // Page slices, ranges and serial numbers
  // ---------------------------------------------------------------------

  /** `items.slice((p-1)*size, p*size)`. */
  function PageSlice<T>(items: seq<T>, p: int, size: nat): (r: seq<T>)
    ensures |r| <= |items|
  {
    Slice(items, (p - 1) * size, p * size)
  }

  /** A page between 1 and `ceil(n/size)` holds between 1 and `size` items:
      the run of `items` starting at `(p-1)*size`. */
  lemma {:induction false} PageSliceOfValidPage<T>(items: seq<T>, p: int, size: nat)
    requires size > 0
    requires 1 <= p <= CeilDiv(|items|, size)
    ensures (p - 1) * size < |items|
    ensures PageSlice(items, p, size) == items[(p - 1) * size..Min(p * size, |items|)]
    ensures 1 <= |PageSlice(items, p, size)| <= size
  {
    var q := CeilDiv(|items|, size);
    assert (p - 1) * size <= (q - 1) * size;
    assert p * size == (p - 1) * size + size;
    SliceNatural(items, (p - 1) * size, p * size);
  }

  /** A page beyond the last one is empty. */
  lemma {:induction false} PageSliceBeyondLast<T>(items: seq<T>, p: int, size: nat)
    requires size > 0
    requires p > CeilDiv(|items|, size)
    ensures PageSlice(items, p, size) == []
  {
    var q := CeilDiv(|items|, size);
    assert (p - 1) * size >= q * size;
    SliceNatural(items, (p - 1) * size, p * size);
  }

  /** Pages `1..k` laid end to end. */
  function PagesUpTo<T>(items: seq<T>, size: nat, k: nat): seq<T>
  {
    if k == 0 then [] else PagesUpTo(items, size, k - 1) + PageSlice(items, k, size)
  }

  /** Reading pages 1 to `ceil(n/size)` in turn shows every item once, in
      order. */
  lemma {:induction false} PagesCoverItems<T>(items: seq<T>, size: nat)
    requires size > 0
    ensures PagesUpTo(items, size, CeilDiv(|items|, size)) == items
  {
    PagesPrefix(items, size, CeilDiv(|items|, size));
  }

  lemma {:induction false} PagesPrefix<T>(items: seq<T>, size: nat, k: nat)
    requires size > 0
    requires k <= CeilDiv(|items|, size)
    ensures PagesUpTo(items, size, k) == items[..Min(k * size, |items|)]
  {
    if k > 0 {
      PagesPrefix(items, size, k - 1);
      PageSliceOfValidPage(items, k, size);
      assert (k - 1) * size < |items|;
      assert items[..(k - 1) * size] + items[(k - 1) * size..Min(k * size, |items|)]
          == items[..Min(k * size, |items|)];
    }
  }

  /** 1-based position of row `i` of page `p` (the serial-number column). */
  function Serial(p: int, size: nat, i: nat): int
  {
    (p - 1) * size + i + 1
  }

  /** The serial number shown beside a row is that row's 1-based position in
      the whole filtered list, so numbering runs on across pages. */
  lemma {:induction false} SerialIsPosition<T>(items: seq<T>, p: int, size: nat, i: nat)
    requires size > 0
    requires 1 <= p <= CeilDiv(|items|, size)
    requires i < |PageSlice(items, p, size)|
    ensures 1 <= Serial(p, size, i) <= |items|
    ensures PageSlice(items, p, size)[i] == items[Serial(p, size, i) - 1]
  {
    PageSliceOfValidPage(items, p, size);
  }

  /** First and last 1-based positions shown on page `p` of `n` items. */
  function RangeOf(p: int, size: nat, n: nat): (int, int)
  {
    ((p - 1) * size + 1, Min(p * size, n))
  }

  /** The "Showing a-b of n" line, hidden when there are no items. */
  function ShowingLine(p: int, size: nat, n: nat): Option<(int, int)>
  {
    if n > 0 then Some(RangeOf(p, size, n)) else None
  }

  /** On a valid page the line names the rows actually on it: a non-empty
      range inside `1..n` whose length is the page's row count. */
  lemma {:induction false} ShowingMatchesSlice<T>(items: seq<T>, p: int, size: nat)
    requires size > 0
    requires 1 <= p <= CeilDiv(|items|, size)
    ensures ShowingLine(p, size, |items|).Some?
    ensures var (a, b) := ShowingLine(p, size, |items|).value;
            1 <= a <= b <= |items| && b - a + 1 == |PageSlice(items, p, size)|
  {
    PageSliceOfValidPage(items, p, size);
  }

  /** Consecutive pages' ranges abut, the first starts at 1 and the last
      ends at `n`. */
  lemma {:induction false} RangesTile(p: int, size: nat, n: nat)
    requires size > 0
    requires 1 <= p <= CeilDiv(n, size)
    ensures RangeOf(1, size, n).0 == 1
    ensures p < CeilDiv(n, size) ==> RangeOf(p + 1, size, n).0 == RangeOf(p, size, n).1 + 1
    ensures p == CeilDiv(n, size) ==> RangeOf(p, size, n).1 == n
  {
    var q := CeilDiv(n, size);
    assert p * size == (p - 1) * size + size;
    if p < q {
      assert p * size <= (q - 1) * size;
    }
  }

  // ---------------------------------------------------------------------
  // Article management table: five-button sliding window
  // ---------------------------------------------------------------------

  const ManagePageSize := 10

  /** `handlePageChange`: clamp to `1..T`, which is 0 when there are no pages. */
  function ClampPage(page: int, total: nat): (r: int)
    ensures total >= 1 ==> 1 <= r <= total
    ensures total >= 1 ==> (r == page <==> 1 <= page <= total)
    ensures total == 0 ==> r == 0
  {
    Min(Max(1, page), total)
  }

  /** Clamping twice is clamping once. */
  lemma {:induction false} ClampPageIdempotent(page: int, total: nat)
    ensures ClampPage(ClampPage(page, total), total) == ClampPage(page, total)
  {
  }

  /** The pages on the `min(5, T)` window buttons. */
  function ManageWindow(p: int, total: nat): (w: seq<int>)
    ensures |w| == Min(5, total)
    ensures forall i :: 0 <= i < |w| ==> 1 <= w[i] <= total
    ensures forall i :: 0 <= i < |w| ==> w[i] == w[0] + i
    ensures 1 <= p <= total ==> w[0] <= p <= w[|w| - 1]
  {
    seq(Min(5, total), i =>
      if total <= 5 then i + 1
      else if p <= 3 then i + 1
      else if p >= total - 2 then total - 4 + i
      else p - 2 + i)
  }

  /** Away from both ends of a long list the current page is the middle
      button, and every window button leads to its own page. */
  lemma {:induction false} ManageWindowCentred(p: int, total: nat)
    requires total > 5 && 3 < p < total - 2
    ensures ManageWindow(p, total)[2] == p
    ensures forall i :: 0 <= i < 5 ==> ClampPage(ManageWindow(p, total)[i], total) == ManageWindow(p, total)[i]
  {
  }

  // ---------------------------------------------------------------------
  // Projects page: per-page show/ellipsis decision
  // ---------------------------------------------------------------------

  const ProjectsPerPage := 6

  /** What the projects page renders for page `q` when `p` is current:
      an ellipsis takes precedence, then a button if the page is first,
      last or next to `p`, else nothing. */
  function ProjectCell(p: int, total: int, q: int): Option<PageItem>
  {
    var showPage := q == 1 || q == total || (p - 1 <= q <= p + 1);
    var ellipsisBefore := q == p - 2 && p > 3;
    var ellipsisAfter := q == p + 2 && p < total - 2;
    if ellipsisBefore || ellipsisAfter then Some(Dots)
    else if !showPage then None
    else Some(Num(q))
  }

  /** The cells for pages `1..total`. */
  function ProjectCells(p: int, total: nat): (cells: seq<Option<PageItem>>)
    ensures |cells| == total
    ensures forall i :: 0 <= i < total ==> cells[i] == ProjectCell(p, total, i + 1)
  {
    seq(total, i => ProjectCell(p, total, i + 1))
  }

  /** The entries actually drawn: the cells that are not `null`. */
  function Present(cells: seq<Option<PageItem>>): (r: seq<PageItem>)
    ensures |r| <= |cells|
  {
    if |cells| == 0 then []
    else (if cells[0].Some? then [cells[0].value] else []) + Present(cells[1..])
  }

  lemma {:induction false} PresentAppend(a: seq<Option<PageItem>>, b: seq<Option<PageItem>>)
    ensures Present(a + b) == Present(a) + Present(b)
  {
    if |a| == 0 {
      assert a + b == b;
    } else {
      var h: seq<PageItem> := if a[0].Some? then [a[0].value] else [];
      assert (a + b)[0] == a[0];
      assert (a + b)[1..] == a[1..] + b;
      assert Present(a + b) == h + Present(a[1..] + b);
      PresentAppend(a[1..], b);
      assert Present(a) == h + Present(a[1..]);
    }
  }

  lemma {:induction false} PresentNone(a: seq<Option<PageItem>>)
    requires forall i :: 0 <= i < |a| ==> a[i] == None
    ensures Present(a) == []
  {
    if |a| > 0 {
      PresentNone(a[1..]);
    }
  }

  /** Cells that are all buttons for consecutive pages draw those buttons. */
  lemma {:induction false} PresentButtons(a: seq<Option<PageItem>>, lo: int)
    requires forall i :: 0 <= i < |a| ==> a[i] == Some(Num(lo + i))
    ensures Present(a) == Buttons(lo, lo + |a| - 1)
  {
    if |a| > 0 {
      PresentButtons(a[1..], lo + 1);
      assert Present(a) == [Num(lo)] + Buttons(lo + 1, lo + |a| - 1);
    }
  }

  /** For a current page in range, page 1, page T and page p always get a
      button: an ellipsis never replaces them. */
  lemma {:induction false} ProjectCellsKeepEnds(p: int, total: nat)
    requires 1 <= p <= total
    ensures ProjectCells(p, total)[0] == Some(Num(1))
    ensures ProjectCells(p, total)[total - 1] == Some(Num(total))
    ensures ProjectCells(p, total)[p - 1] == Some(Num(p))
  {
  }

  /** Pages `2..startPage-1` draw one ellipsis when `startPage > 2`, else
      nothing. */
  lemma {:induction false} ProjectCellsBefore(p: int, total: nat)
    requires 1 <= p <= total
    requires total > 1
    ensures 1 <= WindowStart(p) - 1 <= total
    ensures Present(ProjectCells(p, total)[1..WindowStart(p) - 1])
            == if WindowStart(p) > 2 then [Dots] else []
  {
    var cells := ProjectCells(p, total);
    var lo := WindowStart(p);
    if lo > 2 {
      var r := cells[1..lo - 1];
      assert r[|r| - 1] == ProjectCell(p, total, p - 2) == Some(Dots);
      var t := r[..|r| - 1];
      assert r == t + [Some(Dots)];
      forall i | 0 <= i < |t|
        ensures t[i] == None
      {
        assert t[i] == cells[i + 1] == ProjectCell(p, total, i + 2);
      }
      PresentNone(t);
      PresentAppend(t, [Some(Dots)]);
    }
  }

  /** Pages `endPage+1..T-1` draw one ellipsis when `endPage < T-1`, else
      nothing. */
  lemma {:induction false} ProjectCellsAfter(p: int, total: nat)
    requires 1 <= p <= total
    requires total > 1
    ensures 1 <= WindowEnd(p, total) <= total - 1
    ensures Present(ProjectCells(p, total)[WindowEnd(p, total)..total - 1])
            == if WindowEnd(p, total) < total - 1 then [Dots] else []
  {
    var cells := ProjectCells(p, total);
    var hi := WindowEnd(p, total);
    if hi < total - 1 {
      var r := cells[hi..total - 1];
      assert r[0] == ProjectCell(p, total, p + 2) == Some(Dots);
      var t := r[1..];
      assert r == [Some(Dots)] + t;
      forall i | 0 <= i < |t|
        ensures t[i] == None
      {
        assert t[i] == cells[hi + 1 + i] == ProjectCell(p, total, p + 3 + i);
      }
      PresentNone(t);
      PresentAppend([Some(Dots)], t);
    }
  }

  /** A slice of cells that are buttons for their own pages draws those
      buttons. */
  lemma {:induction false} PresentRun(cells: seq<Option<PageItem>>, lo: int, hi: int)
    requires 1 <= lo - 1 <= hi <= |cells|
    requires forall i :: lo - 1 <= i < hi ==> cells[i] == Some(Num(i + 1))
    ensures Present(cells[lo - 1..hi]) == Buttons(lo, hi)
  {
    var r := cells[lo - 1..hi];
    forall i | 0 <= i < |r|
      ensures r[i] == Some(Num(lo + i))
    {
      assert r[i] == cells[lo - 1 + i];
    }
    PresentButtons(r, lo);
  }

  lemma {:induction false} NearCellIsButton(p: int, total: int, q: int)
    requires p - 1 <= q <= p + 1
    ensures ProjectCell(p, total, q) == Some(Num(q))
  {
  }

  /** Pages `startPage..endPage` draw their own buttons. */
  lemma {:induction false} ProjectCellsMiddle(p: int, total: nat)
    requires 1 <= p <= total
    requires total > 1
    ensures 1 <= WindowStart(p) - 1 <= WindowEnd(p, total) <= total - 1
    ensures Present(ProjectCells(p, total)[WindowStart(p) - 1..WindowEnd(p, total)])
            == Buttons(WindowStart(p), WindowEnd(p, total))
  {
    var cells := ProjectCells(p, total);
    var lo, hi := WindowStart(p), WindowEnd(p, total);
    assert p - 1 <= lo && hi <= p + 1;
    forall i | lo - 1 <= i < hi
      ensures cells[i] == Some(Num(i + 1))
    {
      NearCellIsButton(p, total, i + 1);
    }
    PresentRun(cells, lo, hi);
  }

  lemma {:induction false} Regroup<T>(a: seq<T>, b: seq<T>, c: seq<T>, d: seq<T>, e: seq<T>)
    ensures a + (b + (c + (d + e))) == a + b + c + d + e
  {
  }

  lemma {:induction false} PresentSlices(s: seq<Option<PageItem>>, a: nat, b: nat, c: nat)
    requires a <= b <= c <= |s|
    ensures Present(s[a..c]) == Present(s[a..b]) + Present(s[b..c])
  {
    assert s[a..c] == s[a..b] + s[b..c];
    PresentAppend(s[a..b], s[b..c]);
  }

  /** Drawing a row of cells region by region: page 1, the cells before
      the middle run, the run, the cells after it, and the last page. */
  lemma {:induction false} AssembleBar(cells: seq<Option<PageItem>>, lo: int, hi: int,
                                       left: seq<PageItem>, mid: seq<PageItem>, right: seq<PageItem>)
    requires |cells| >= 2 && 1 <= lo - 1 <= hi <= |cells| - 1
    requires cells[0] == Some(Num(1)) && cells[|cells| - 1] == Some(Num(|cells|))
    requires Present(cells[1..lo - 1]) == left
    requires Present(cells[lo - 1..hi]) == mid
    requires Present(cells[hi..|cells| - 1]) == right
    ensures Present(cells) == [Num(1)] + left + mid + right + [Num(|cells|)]
  {
    var n := |cells|;
    PresentOne(cells, 0);
    PresentOne(cells, n - 1);
    PresentSlices(cells, hi, n - 1, n);
    PresentSlices(cells, lo - 1, hi, n);
    PresentSlices(cells, 1, lo - 1, n);
    PresentSlices(cells, 0, 1, n);
    assert cells[0..n] == cells;
    Regroup([Num(1)], left, mid, right, [Num(n)]);
  }

  lemma {:induction false} PresentOne(cells: seq<Option<PageItem>>, i: nat)
    requires i < |cells| && cells[i].Some?
    ensures Present(cells[i..i + 1]) == [cells[i].value]
  {
    var one := cells[i..i + 1];
    assert one == [cells[i]];
    assert one[1..] == [];
  }

  /** The two renderings agree: what the projects page draws is exactly the
      article list's page bar. */
  lemma {:induction false} ProjectBarIsPageBar(p: int, total: nat)
    requires 1 <= p <= total
    requires total > 1
    ensures Present(ProjectCells(p, total)) == PageBar(p, total)
  {
    var lo, hi := WindowStart(p), WindowEnd(p, total);
    ProjectCellsKeepEnds(p, total);
    ProjectCellsBefore(p, total);
    ProjectCellsMiddle(p, total);
    ProjectCellsAfter(p, total);
    AssembleBar(ProjectCells(p, total), lo, hi,
                if lo > 2 then [Dots] else [], Buttons(lo, hi),
                if hi < total - 1 then [Dots] else []);
  }
}
