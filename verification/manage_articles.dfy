/** The admin table of articles: a title search, client-side pages of ten
    rows with a five-button window, serial numbers, and deletion after
    confirmation. The fetch, the confirmation dialog and the DELETE request
    are outside the model; their outcomes arrive as events. The fetch asks
    the server for the current page with a limit of ten and is sent again
    whenever the page changes. Each deletion remembers the row list of the
    render in which its Delete button was clicked, because the handler
    filters the `articles` array its closure captured there. */
module ManageArticles {
  import opened Common
  import opened Pagination

  /** One row of the table. */
  datatype Row = Row(id: String, title: String, category: String, createdAt: String)

  /** A deletion: the article's id and the row list of the render in which
      its Delete button was clicked. */
  datatype Deletion = Deletion(id: String, captured: seq<Row>)

  /** `deleting` is the `deletingId` slot that disables one Delete button;
      `dialog` is the open confirmation dialog; `pending` holds the DELETE
      requests in flight in the order they were sent; `fetches` holds the
      pages of the fetches in flight, in the order they were sent. */
  datatype Table = Table(
    rows: seq<Row>,
    search: String,
    page: int,
    deleting: Option<String>,
    dialog: Option<Deletion>,
    pending: seq<Deletion>,
    fetches: seq<int>)

  /** The initial state: no rows, empty search, page 1, and the fetch of
      page 1 that the mount effect sends. */
  const Initial := Table([], "", 1, None, None, [], [1])

  /** The search is a case-insensitive substring test on the title. */
  predicate MatchesSearch(r: Row, search: String) {
    Contains(Lower(r.title), Lower(search))
  }

  /** `filteredData`. */
  function Filtered(rows: seq<Row>, search: String): (r: seq<Row>)
    ensures |r| <= |rows|
  {
    Keep(rows, x => MatchesSearch(x, search))
  }

  /** `articles.filter(a => a._id !== id)`. */
  function Remove(rows: seq<Row>, id: String): (r: seq<Row>)
    ensures |r| <= |rows|
  {
    Keep(rows, (x: Row) => x.id != id)
  }

  /** The search keeps exactly the matching rows, in their original order. */
  lemma {:induction false} FilteredSpec(rows: seq<Row>, search: String)
    ensures forall x :: x in Filtered(rows, search) <==> x in rows && MatchesSearch(x, search)
    ensures Subsequence(Filtered(rows, search), rows)
  {
    KeepMembers(rows, x => MatchesSearch(x, search));
    KeepInOrder(rows, x => MatchesSearch(x, search));
  }

  /** An empty search keeps every row. */
  lemma {:induction false} EmptySearchKeepsAll(rows: seq<Row>)
    ensures Filtered(rows, "") == rows
  {
    forall k | 0 <= k < |rows| ensures MatchesSearch(rows[k], "") {
      assert Lower("") == [];
      ContainsEmpty(Lower(rows[k].title));
    }
    KeepAll(rows, x => MatchesSearch(x, ""));
  }

  /** A delete removes exactly the rows with that id and keeps the others
      in order. */
  lemma {:induction false} RemoveSpec(rows: seq<Row>, id: String)
    ensures forall x :: x in Remove(rows, id) <==> x in rows && x.id != id
    ensures Subsequence(Remove(rows, id), rows)
  {
    KeepMembers(rows, (x: Row) => x.id != id);
    KeepInOrder(rows, (x: Row) => x.id != id);
  }

  /** Deleting and then searching shows the same rows as searching and then
      deleting. */
  lemma {:induction false} RemoveCommutesWithSearch(rows: seq<Row>, id: String, search: String)
    ensures Filtered(Remove(rows, id), search) == Remove(Filtered(rows, search), id)
  {
    KeepCommutes(rows, (x: Row) => x.id != id, x => MatchesSearch(x, search));
  }

  /** `totalPages`. */
  function TotalPages(t: Table): nat {
    CeilDiv(|Filtered(t.rows, t.search)|, ManagePageSize)
  }

  /** `paginatedData`. */
  function Visible(t: Table): seq<Row> {
    PageSlice(Filtered(t.rows, t.search), t.page, ManagePageSize)
  }

  /** The "Showing a to b of n results" line; the whole pagination bar is
      hidden when no row matches. */
  function Showing(t: Table): Option<(int, int)> {
    ShowingLine(t.page, ManagePageSize, |Filtered(t.rows, t.search)|)
  }

  /** A Delete button exists for the row only while it is on the page. */
  predicate OnPage(t: Table, id: String) {
    exists r :: r in Visible(t) && r.id == id
  }

  /** The pagination bar's controls. */
  datatype Control = PreviousPage | NextPage | WindowButton(i: nat)

  datatype Event =
    | Loaded(k: nat, rows: seq<Row>)   // the `k`-th fetch in flight delivered these rows
    | SearchEdited(text: String)       // the search box changed
    | Clicked(c: Control)              // a pagination control was pressed
    | DeleteClicked(id: String)        // the Delete button of this row was clicked
    | DeleteConfirmed                  // the open dialog was confirmed
    | DeleteCancelled                  // the open dialog was dismissed
    | DeleteAnswered(k: nat, ok: bool) // the `k`-th pending request ended

  /** The pagination bar, which exists only when some row matches. A
      disabled button and a button that is not there do nothing. */
  function ClickControl(t: Table, c: Control): (page: int)
  {
    var total := TotalPages(t);
    if |Filtered(t.rows, t.search)| == 0 then t.page
    else
      match c
      case PreviousPage => if t.page == 1 then t.page else ClampPage(t.page - 1, total)
      case NextPage => if t.page == total then t.page else ClampPage(t.page + 1, total)
      case WindowButton(i) =>
        var w := ManageWindow(t.page, total);
        if i < |w| then ClampPage(w[i], total) else t.page
  }

  /** Everything except the handling of a delete's answer and of the page
      fetch, which is where the two variants below differ. A failed fetch
      changes nothing and is not an event. The dialog is modal, so no
      second Delete is clicked while it is open. */
  function Shared(t: Table, e: Event): Table
  {
    match e
    case Loaded(k, rows) =>
      if k >= |t.fetches| then t
      else t.(rows := rows, fetches := t.fetches[..k] + t.fetches[k + 1..])
    case SearchEdited(text) => t.(search := text, page := 1)
    case Clicked(c) => t.(page := ClickControl(t, c))
    case DeleteClicked(id) =>
      if t.dialog.Some? || !OnPage(t, id) || t.deleting == Some(id) then t
      else t.(dialog := Some(Deletion(id, t.rows)))
    case DeleteConfirmed =>
      if t.dialog.None? then t
      else t.(deleting := Some(t.dialog.value.id), dialog := None, pending := t.pending + [t.dialog.value])
    case DeleteCancelled => t.(dialog := None)
    case DeleteAnswered(k, ok) =>
      if k >= |t.pending| then t
      else t.(deleting := None, pending := t.pending[..k] + t.pending[k + 1..])
  }

  /** The effect keyed on `currentPage`: a change of page sends the fetch
      of the new page. */
  function Refetch(before: Table, after: Table): Table
  {
    if after.page != before.page then after.(fetches := after.fetches + [after.page]) else after
  }

  /** The table as written: a successful delete replaces the rows by the
      captured list without the deleted id, the page is left alone, and
      every page change fetches that page. */
  function Step(t: Table, e: Event): Table
  {
    var t' := Shared(t, e);
    match e
    case DeleteAnswered(k, ok) =>
      if k < |t.pending| && ok then Refetch(t, t'.(rows := Remove(t.pending[k].captured, t.pending[k].id)))
      else Refetch(t, t')
    case _ => Refetch(t, t')
  }

  function Run(t: Table, evs: seq<Event>): Table
    decreases |evs|
  {
    if |evs| == 0 then t else Run(Step(t, evs[0]), evs[1..])
  }

  /** The page brought back into `1..max(1, T)` after the rows change. */
  function Resettle(t: Table): (r: Table)
    ensures 1 <= r.page <= Max(1, TotalPages(r))
    ensures r.rows == t.rows && r.search == t.search && r.pending == t.pending
    ensures 1 <= t.page <= Max(1, TotalPages(t)) ==> r == t
  {
    var total := TotalPages(t);
    if total == 0 then t.(page := 1) else t.(page := ClampPage(t.page, total))
  }

  /** The corrected table. The fetch asks for the whole list once, on
      mount, which is what the client-side search and pages are written
      for; a successful delete removes the id from the current rows; and
      every change of the rows re-clamps the page. */
  function FixedStep(t: Table, e: Event): Table
  {
    match e
    case Loaded(_, _) => Resettle(Shared(t, e))
    case DeleteAnswered(k, ok) =>
      var t' := Shared(t, e);
      if k < |t.pending| && ok then Resettle(t'.(rows := Remove(t.rows, t.pending[k].id))) else t'
    case _ => Shared(t, e)
  }

  function FixedRun(t: Table, evs: seq<Event>): Table
    decreases |evs|
  {
    if |evs| == 0 then t else FixedRun(FixedStep(t, evs[0]), evs[1..])
  }

  // ---------------------------------------------------------------------
  // Properties shared by both variants
  // ---------------------------------------------------------------------

  /** The page is a real page, or page 1 when nothing matches. */
  predicate PageValid(t: Table) {
    1 <= t.page <= Max(1, TotalPages(t))
  }

  /** Editing the search goes back to page 1 and filters by the new text. */
  lemma {:induction false} SearchResetsPage(t: Table, text: String)
    ensures Step(t, SearchEdited(text)).page == 1
    ensures FixedStep(t, SearchEdited(text)).page == 1
    ensures Visible(Step(t, SearchEdited(text)))
            == PageSlice(Filtered(t.rows, text), 1, ManagePageSize)
    ensures PageValid(Step(t, SearchEdited(text)))
  {
  }

  /** Searching, paging and the delete dialog never leave the valid pages. */
  lemma {:induction false} ControlsKeepPageValid(t: Table, e: Event)
    requires PageValid(t)
    requires e.SearchEdited? || e.Clicked? || e.DeleteClicked? || e.DeleteConfirmed? || e.DeleteCancelled?
    ensures PageValid(Step(t, e))
  {
  }

  /** Every pagination control lands on a page in `1..T` while the bar is
      shown, and the disabled ends stay put. */
  lemma {:induction false} ClickControlSpec(t: Table, c: Control)
    requires |Filtered(t.rows, t.search)| > 0
    requires PageValid(t)
    ensures 1 <= ClickControl(t, c) <= TotalPages(t)
    ensures c == PreviousPage ==> ClickControl(t, c) == Max(1, t.page - 1)
    ensures c == NextPage ==> ClickControl(t, c) == Min(TotalPages(t), t.page + 1)
  {
    assert TotalPages(t) >= 1;
  }

  // ---------------------------------------------------------------------
  // Finding: the server's pages and the table's pages are stacked
  // ---------------------------------------------------------------------

  /** The first page of the server's list. */
  function FirstPage(all: seq<Row>): (r: seq<Row>)
    ensures r == all[..Min(ManagePageSize, |all|)]
  {
    SliceNatural(all, 0, ManagePageSize);
    PageSlice(all, 1, ManagePageSize)
  }

  /** Loads of at most one page of rows keep the table on page 1, and so
      every fetch in flight is a fetch of page 1. */
  predicate PageOneOnly(t: Table) {
    && t.page == 1
    && (forall k :: 0 <= k < |t.fetches| ==> t.fetches[k] == 1)
    && |t.rows| <= ManagePageSize
    && (t.dialog.Some? ==> |t.dialog.value.captured| <= ManagePageSize)
    && (forall k :: 0 <= k < |t.pending| ==> |t.pending[k].captured| <= ManagePageSize)
  }

  /** A load carries at most one page of rows. */
  predicate SmallLoad(e: Event) {
    e.Loaded? ==> |e.rows| <= ManagePageSize
  }

  /** At most ten rows make at most one page. */
  lemma {:induction false} FewRowsOnePage(t: Table)
    requires |t.rows| <= ManagePageSize
    ensures TotalPages(t) <= 1
  {
  }

  lemma {:induction false} SmallLoadKeepsPageOne(t: Table, e: Event)
    requires PageOneOnly(t) && SmallLoad(e)
    ensures PageOneOnly(Step(t, e))
  {
    FewRowsOnePage(t);
    match e
    case Clicked(c) =>
      if |Filtered(t.rows, t.search)| > 0 {
        ClickControlSpec(t, c);
      }
    case Loaded(k, rows) =>
      if k < |t.fetches| {
        var f := t.fetches[..k] + t.fetches[k + 1..];
        assert forall j :: 0 <= j < |f| ==> f[j] in t.fetches;
      }
    case DeleteAnswered(k, ok) =>
      if k < |t.pending| {
        var p := t.pending[..k] + t.pending[k + 1..];
        assert forall j :: 0 <= j < |p| ==> p[j] in t.pending;
      }
    case DeleteConfirmed =>
    case _ =>
  }

  /** Every load carries at most one page of rows. */
  predicate SmallLoads(evs: seq<Event>) {
    forall j :: 0 <= j < |evs| ==> SmallLoad(evs[j])
  }

  /** As written, a server that honours the limit of ten keeps the table on
      page 1 for ever: the bar never offers a second page, and the page is
      never fetched but the first. */
  lemma {:induction false} SmallLoadsKeepPageOne(t: Table, evs: seq<Event>)
    requires PageOneOnly(t) && SmallLoads(evs)
    ensures PageOneOnly(Run(t, evs))
    decreases |evs|
  {
    if |evs| > 0 {
      SmallLoadKeepsPageOne(t, evs[0]);
      SmallLoadsKeepPageOne(Step(t, evs[0]), evs[1..]);
    }
  }

  /** The server answers each fetch with the requested page of `all`. */
  predicate PagingServer(all: seq<Row>, t: Table, e: Event) {
    e.Loaded? && e.k < |t.fetches| ==> e.rows == PageSlice(all, t.fetches[e.k], ManagePageSize)
  }

  /** Every load of the run answers its fetch as a paging server does. */
  predicate PagingRun(all: seq<Row>, t: Table, evs: seq<Event>)
    decreases |evs|
  {
    |evs| == 0 || (PagingServer(all, t, evs[0]) && PagingRun(all, Step(t, evs[0]), evs[1..]))
  }

  /** Every row of `rows` is one of `pool`. */
  predicate Within(rows: seq<Row>, pool: seq<Row>) {
    forall k :: 0 <= k < |rows| ==> rows[k] in pool
  }

  /** Deleting keeps a list within its pool. */
  lemma {:induction false} RemoveWithin(rows: seq<Row>, id: String, pool: seq<Row>)
    requires Within(rows, pool)
    ensures Within(Remove(rows, id), pool)
  {
    RemoveSpec(rows, id);
    var r := Remove(rows, id);
    forall i | 0 <= i < |r| ensures r[i] in pool {
      assert r[i] in rows;
    }
  }

  /** The rows, and every captured list, are drawn from the first page. */
  predicate FromFirstPage(all: seq<Row>, t: Table) {
    && Within(t.rows, FirstPage(all))
    && (t.dialog.Some? ==> Within(t.dialog.value.captured, FirstPage(all)))
    && (forall j :: 0 <= j < |t.pending| ==> Within(t.pending[j].captured, FirstPage(all)))
  }

  /** A delete's answer keeps the table within the first page. */
  lemma {:induction false} AnswerKeepsFirstPage(all: seq<Row>, t: Table, k: nat, ok: bool)
    requires FromFirstPage(all, t)
    ensures FromFirstPage(all, Step(t, DeleteAnswered(k, ok)))
  {
    if k < |t.pending| {
      var p := t.pending[..k] + t.pending[k + 1..];
      assert forall j :: 0 <= j < |p| ==> p[j] in t.pending;
      if ok {
        RemoveWithin(t.pending[k].captured, t.pending[k].id, FirstPage(all));
      }
    }
  }

  lemma {:induction false} PagingStepKeepsFirstPage(all: seq<Row>, t: Table, e: Event)
    requires PageOneOnly(t) && FromFirstPage(all, t) && PagingServer(all, t, e)
    ensures PageOneOnly(Step(t, e)) && FromFirstPage(all, Step(t, e))
  {
    if e.Loaded? && e.k >= |t.fetches| {
      assert Step(t, e) == t;
    } else {
      if e.Loaded? {
        assert e.rows == FirstPage(all);
      }
      SmallLoadKeepsPageOne(t, e);
      if e.DeleteAnswered? {
        AnswerKeepsFirstPage(all, t, e.k, e.ok);
      }
    }
  }

  lemma {:induction false} PagingRunKeepsFirstPage(all: seq<Row>, t: Table, evs: seq<Event>)
    requires PageOneOnly(t) && FromFirstPage(all, t) && PagingRun(all, t, evs)
    ensures PageOneOnly(Run(t, evs)) && FromFirstPage(all, Run(t, evs))
    decreases |evs|
  {
    if |evs| > 0 {
      PagingStepKeepsFirstPage(all, t, evs[0]);
      PagingRunKeepsFirstPage(all, Step(t, evs[0]), evs[1..]);
    }
  }

  /** As written, against a server that pages its answers, the table only
      ever lists articles of the server's first page: it stays on page 1
      and every row it holds is one of the first ten. */
  lemma {:induction false} OnlyFirstServerPageListed(all: seq<Row>, evs: seq<Event>)
    requires PagingRun(all, Initial, evs)
    ensures var t := Run(Initial, evs);
            && t.page == 1
            && forall k :: 0 <= k < |t.rows| ==> t.rows[k] in all[..Min(ManagePageSize, |all|)]
  {
    PagingRunKeepsFirstPage(all, Initial, evs);
  }

  /** So the eleventh article of the server's list never shows up in the
      table, whatever the admin does. */
  lemma {:induction false} EleventhArticleNeverListed(all: seq<Row>, evs: seq<Event>)
    requires |all| > ManagePageSize && all[ManagePageSize] !in all[..ManagePageSize]
    requires PagingRun(all, Initial, evs)
    ensures all[ManagePageSize] !in Run(Initial, evs).rows
  {
    OnlyFirstServerPageListed(all, evs);
  }

  /** `n` presses of the Next button. */
  function Nexts(n: nat): (evs: seq<Event>)
    decreases n
  {
    if n == 0 then [] else [Clicked(NextPage)] + Nexts(n - 1)
  }

  /** With the corrected fetch, Next walks through the pages one at a time. */
  lemma {:induction false} NextsAdvance(t: Table, n: nat)
    requires PageValid(t) && |Filtered(t.rows, t.search)| > 0
    requires t.page + n <= TotalPages(t)
    ensures var r := FixedRun(t, Nexts(n));
            r.page == t.page + n && r.rows == t.rows && r.search == t.search
    decreases n
  {
    if n > 0 {
      var evs := Nexts(n);
      assert evs[0] == Clicked(NextPage) && evs[1..] == Nexts(n - 1);
      ClickControlSpec(t, NextPage);
      NextsAdvance(FixedStep(t, Clicked(NextPage)), n - 1);
    }
  }

  /** With the corrected fetch, loading the whole list shows page 1 of it
      with no search. */
  lemma {:induction false} LoadAllShowsPageOne(all: seq<Row>)
    ensures var t := FixedStep(Initial, Event.Loaded(0, all));
            && t.rows == all && t.search == "" && t.page == 1
            && Filtered(t.rows, t.search) == all
            && TotalPages(t) == CeilDiv(|all|, ManagePageSize)
  {
    EmptySearchKeepsAll(all);
  }

  /** The `i`-th article sits on page `i / 10 + 1`, which is a real page. */
  lemma {:induction false} ArticleOnItsPage(all: seq<Row>, i: nat)
    requires i < |all|
    ensures var q := i / ManagePageSize + 1;
            && q <= CeilDiv(|all|, ManagePageSize)
            && all[i] in PageSlice(all, q, ManagePageSize)
  {
    var q := i / ManagePageSize + 1;
    assert (q - 1) * ManagePageSize <= i < q * ManagePageSize;
    var c := CeilDiv(|all|, ManagePageSize);
    assert q <= c;
    PageSliceOfValidPage(all, q, ManagePageSize);
    var v := PageSlice(all, q, ManagePageSize);
    assert v == all[(q - 1) * ManagePageSize..Min(q * ManagePageSize, |all|)];
    assert v[i - (q - 1) * ManagePageSize] == all[i];
  }

  /** With the corrected fetch, every article of the server's list can be
      reached: after the whole list is loaded, `i / 10` presses of Next
      show the page holding the `i`-th article. */
  lemma {:induction false} FullListReachesEveryArticle(all: seq<Row>, i: nat)
    requires i < |all|
    ensures var q := i / ManagePageSize + 1;
            var t := FixedRun(Initial, [Event.Loaded(0, all)] + Nexts(q - 1));
            t.page == q && all[i] in Visible(t)
  {
    var q := i / ManagePageSize + 1;
    var evs := [Event.Loaded(0, all)] + Nexts(q - 1);
    assert evs[0] == Event.Loaded(0, all) && evs[1..] == Nexts(q - 1);
    var t1 := FixedStep(Initial, Event.Loaded(0, all));
    LoadAllShowsPageOne(all);
    ArticleOnItsPage(all, i);
    NextsAdvance(t1, q - 1);
    var t := FixedRun(t1, Nexts(q - 1));
    assert FixedRun(Initial, evs) == t;
    assert Filtered(t.rows, t.search) == all;
  }

  // ---------------------------------------------------------------------
  // Finding: a delete does not re-clamp the page
  // ---------------------------------------------------------------------

  /** A click on the Delete button of a row on the page opens the dialog
      and captures that render's rows. */
  lemma {:induction false} ClickCaptures(t: Table, id: String)
    requires t.dialog.None? && OnPage(t, id) && t.deleting != Some(id)
    ensures Step(t, DeleteClicked(id)) == t.(dialog := Some(Deletion(id, t.rows)))
  {
  }

  /** Confirming sends the request with the rows captured at the click,
      whatever was loaded while the dialog was open. */
  lemma {:induction false} ConfirmUsesClickTimeRows(t: Table, id: String, k: nat, rows: seq<Row>)
    requires t.dialog.None? && OnPage(t, id) && t.deleting != Some(id)
    ensures var r := Step(Step(Step(t, DeleteClicked(id)), Event.Loaded(k, rows)), DeleteConfirmed);
            && r.pending == t.pending + [Deletion(id, t.rows)]
            && r.deleting == Some(id) && r.dialog.None?
  {
  }

  /** As written, a successful answer installs the captured rows without
      the id, whatever the current rows are. */
  lemma {:induction false} AnswerInstallsCaptured(t: Table, k: nat)
    requires k < |t.pending|
    ensures var r := Step(t, DeleteAnswered(k, true));
            && r.rows == Remove(t.pending[k].captured, t.pending[k].id)
            && r.page == t.page && r.deleting.None?
            && r.pending == t.pending[..k] + t.pending[k + 1..]
  {
  }

  /** Eleven rows of which only the last has the id `id`. */
  predicate LastOfEleven(rows: seq<Row>, id: String) {
    |rows| == 11 && rows[10].id == id && forall k :: 0 <= k < 10 ==> rows[k].id != id
  }

  /** Deleting that last row leaves the first ten. */
  lemma {:induction false} LastOfElevenRemoved(rows: seq<Row>, id: String)
    requires LastOfEleven(rows, id)
    ensures Remove(rows, id) == rows[..10]
  {
    var p := (x: Row) => x.id != id;
    assert rows == rows[..10] + [rows[10]];
    KeepAppend(rows[..10], [rows[10]], p);
    KeepAll(rows[..10], p);
    assert Keep([rows[10]], p) == [] + Keep([rows[10]][1..], p);
  }

  /** Page 2 of eleven rows is valid and holds only the last row. */
  lemma {:induction false} PageTwoOfEleven(t: Table, id: String)
    requires LastOfEleven(t.rows, id) && t.search == "" && t.page == 2
    ensures TotalPages(t) == 2 && PageValid(t)
    ensures OnPage(t, id)
  {
    EmptySearchKeepsAll(t.rows);
    CeilDivExact(11, ManagePageSize, 2);
    PageSliceOfValidPage(t.rows, 2, ManagePageSize);
    var v := Visible(t);
    assert v == t.rows[10..11];
    assert v[0] in v && v[0].id == id;
  }

  /** Ten matching rows, shown from page 2: nothing on the page and a
      "Showing" range that runs backwards. */
  lemma {:induction false} PageTwoOfTen(t: Table)
    requires |t.rows| == 10 && t.search == "" && t.page == 2
    ensures TotalPages(t) == 1 && Visible(t) == [] && Showing(t) == Some((11, 10))
  {
    EmptySearchKeepsAll(t.rows);
    CeilDivExact(10, ManagePageSize, 1);
    PageSliceBeyondLast(t.rows, 2, ManagePageSize);
  }

  /** Deleting the only row on the last page leaves the table on a page
      past the end: the rows are empty and the line reads "Showing 11 to
      10 of 10 results". Eleven rows are in the table only when the server
      sends more than the ten rows the fetch asks for, or when the whole
      list is fetched as the corrected table does. */
  lemma {:induction false} DeleteStrandsPage(t0: Table, id: String)
    requires LastOfEleven(t0.rows, id)
    requires t0.search == "" && t0.page == 2 && t0.deleting.None? && t0.dialog.None? && t0.pending == []
    ensures PageValid(t0)
    ensures var t := Step(Step(Step(t0, DeleteClicked(id)), DeleteConfirmed), DeleteAnswered(0, true));
            && t.page == 2 && TotalPages(t) == 1 && !PageValid(t)
            && Visible(t) == []
            && Showing(t) == Some((11, 10))
  {
    PageTwoOfEleven(t0, id);
    ClickCaptures(t0, id);
    var t1 := Step(Step(t0, DeleteClicked(id)), DeleteConfirmed);
    assert t1.pending == [Deletion(id, t0.rows)];
    AnswerInstallsCaptured(t1, 0);
    var t2 := Step(t1, DeleteAnswered(0, true));
    LastOfElevenRemoved(t0.rows, id);
    PageTwoOfTen(t2);
  }

  /** With the fix, the page stays valid after every event. */
  lemma {:induction false} FixedStepKeepsPageValid(t: Table, e: Event)
    requires PageValid(t)
    ensures PageValid(FixedStep(t, e))
  {
    match e
    case Clicked(c) =>
      if |Filtered(t.rows, t.search)| > 0 {
        ClickControlSpec(t, c);
      }
    case _ =>
  }

  lemma {:induction false} FixedRunKeepsPageValid(t: Table, evs: seq<Event>)
    requires PageValid(t)
    ensures PageValid(FixedRun(t, evs))
    decreases |evs|
  {
    if |evs| > 0 {
      FixedStepKeepsPageValid(t, evs[0]);
      FixedRunKeepsPageValid(FixedStep(t, evs[0]), evs[1..]);
    }
  }

  /** So, with the fix, whenever rows match, the table shows between one and
      ten of them and the "Showing" line names exactly those rows. */
  lemma {:induction false} FixedShowingIsAccurate(evs: seq<Event>)
    ensures var t := FixedRun(Initial, evs);
            |Filtered(t.rows, t.search)| > 0 ==>
              && 1 <= |Visible(t)| <= ManagePageSize
              && Showing(t).Some?
              && Showing(t).value.1 - Showing(t).value.0 + 1 == |Visible(t)|
  {
    assert TotalPages(Initial) == 0;
    FixedRunKeepsPageValid(Initial, evs);
    var t := FixedRun(Initial, evs);
    if |Filtered(t.rows, t.search)| > 0 {
      PageSliceOfValidPage(Filtered(t.rows, t.search), t.page, ManagePageSize);
      ShowingMatchesSlice(Filtered(t.rows, t.search), t.page, ManagePageSize);
    }
  }

  // ---------------------------------------------------------------------
  // Finding: overlapping deletes resurrect a deleted row
  // ---------------------------------------------------------------------

  /** No row with this id is in the table. */
  predicate Gone(t: Table, id: String) {
    forall k :: 0 <= k < |t.rows| ==> t.rows[k].id != id
  }

  /** Deleting one of two rows with different ids leaves the other. */
  lemma {:induction false} RemoveFromPair(a: Row, b: Row, id: String)
    requires a.id != b.id && (id == a.id || id == b.id)
    ensures Remove([a, b], id) == if id == a.id then [b] else [a]
  {
    var p := (x: Row) => x.id != id;
    assert [a, b] == [a] + [b];
    KeepAppend([a], [b], p);
    assert Keep([a], p) == (if p(a) then [a] else []) + Keep([], p);
    assert Keep([b], p) == (if p(b) then [b] else []) + Keep([], p);
  }

  /** Both rows of a two-row table are on page 1. */
  lemma {:induction false} PairOnPage(t: Table, a: Row, b: Row)
    requires t.rows == [a, b] && t.search == "" && t.page == 1
    ensures OnPage(t, a.id) && OnPage(t, b.id)
  {
    EmptySearchKeepsAll(t.rows);
    CeilDivExact(2, ManagePageSize, 1);
    PageSliceOfValidPage(t.rows, 1, ManagePageSize);
    var v := Visible(t);
    assert v == t.rows[0..2];
    assert v[0] in v && v[0] == a;
    assert v[1] in v && v[1] == b;
  }

  /** Running two event lists is running their concatenation. */
  lemma {:induction false} RunAppend(t: Table, xs: seq<Event>, ys: seq<Event>)
    ensures Run(t, xs + ys) == Run(Run(t, xs), ys)
    decreases |xs|
  {
    if |xs| > 0 {
      assert (xs + ys)[0] == xs[0] && (xs + ys)[1..] == xs[1..] + ys;
      RunAppend(Step(t, xs[0]), xs[1..], ys);
    } else {
      assert xs + ys == ys;
    }
  }

  /** Deleting `a` and then `b` from the table `[a, b]`: both dialogs are
      confirmed before any answer, and both requests capture `[a, b]`. */
  lemma {:induction false} TwoDeletesConfirmed(a: Row, b: Row, t0: Table)
    requires a.id == "a" && b.id == "b"
    requires t0 == Table([a, b], "", 1, None, None, [], [])
    ensures Run(t0, [DeleteClicked("a"), DeleteConfirmed, DeleteClicked("b"), DeleteConfirmed])
            == Table([a, b], "", 1, Some("b"), None, [Deletion("a", [a, b]), Deletion("b", [a, b])], [])
  {
    var rows := [a, b];
    PairOnPage(t0, a, b);
    var s1 := Step(t0, DeleteClicked("a"));
    var s2 := Step(s1, DeleteConfirmed);
    assert s2 == Table(rows, "", 1, Some("a"), None, [Deletion("a", rows)], []);
    PairOnPage(s2, a, b);
    var s3 := Step(s2, DeleteClicked("b"));
    var s4 := Step(s3, DeleteConfirmed);
    var evs := [DeleteClicked("a"), DeleteConfirmed, DeleteClicked("b"), DeleteConfirmed];
    assert evs[1..] == [DeleteConfirmed, DeleteClicked("b"), DeleteConfirmed];
    assert evs[1..][1..] == [DeleteClicked("b"), DeleteConfirmed];
    assert evs[1..][1..][1..] == [DeleteConfirmed];
    assert Run(s4, []) == s4;
  }

  /** Two rows; the second is deleted while the first one's request is in
      flight, and both requests succeed. The second answer restores the
      first row from the list captured before the first answer. */
  lemma {:induction false} OverlappingDeletesResurrect(a: Row, b: Row, t0: Table)
    requires a.id == "a" && b.id == "b"
    requires t0 == Table([a, b], "", 1, None, None, [], [])
    ensures var t1 := Run(t0, [DeleteClicked("a"), DeleteConfirmed, DeleteClicked("b"), DeleteConfirmed,
                               DeleteAnswered(0, true)]);
            var t2 := Step(t1, DeleteAnswered(0, true));
            Gone(t1, "a") && t2.rows == [a] && !Gone(t2, "a")
  {
    var four := [DeleteClicked("a"), DeleteConfirmed, DeleteClicked("b"), DeleteConfirmed];
    TwoDeletesConfirmed(a, b, t0);
    var s4 := Run(t0, four);
    RunAppend(t0, four, [DeleteAnswered(0, true)]);
    assert four + [DeleteAnswered(0, true)]
        == [DeleteClicked("a"), DeleteConfirmed, DeleteClicked("b"), DeleteConfirmed, DeleteAnswered(0, true)];
    AnswerInstallsCaptured(s4, 0);
    var s5 := Step(s4, DeleteAnswered(0, true));
    assert Run(s4, [DeleteAnswered(0, true)]) == Run(s5, []);
    RemoveFromPair(a, b, "a");
    assert s5.pending == [Deletion("b", [a, b])];
    AnswerInstallsCaptured(s5, 0);
    RemoveFromPair(a, b, "b");
  }

  /** With the fix, a successful delete removes the id from the table, and
      nothing but a fresh fetch brings it back. */
  lemma {:induction false} FixedDeleteRemoves(t: Table, k: nat)
    requires k < |t.pending|
    ensures Gone(FixedStep(t, DeleteAnswered(k, true)), t.pending[k].id)
  {
    var id := t.pending[k].id;
    RemoveSpec(t.rows, id);
    var r := FixedStep(t, DeleteAnswered(k, true)).rows;
    forall i | 0 <= i < |r| ensures r[i].id != id {
      assert r[i] in Remove(t.rows, id);
    }
  }

  lemma {:induction false} FixedStepKeepsGone(t: Table, e: Event, id: String)
    requires Gone(t, id)
    requires !e.Loaded?
    ensures Gone(FixedStep(t, e), id)
  {
    if e.DeleteAnswered? && e.k < |t.pending| && e.ok {
      var r := FixedStep(t, e).rows;
      RemoveSpec(t.rows, t.pending[e.k].id);
      forall i | 0 <= i < |r| ensures r[i].id != id {
        assert r[i] in t.rows;
      }
    }
  }

  lemma {:induction false} FixedDeletedStaysGone(t: Table, k: nat, evs: seq<Event>)
    requires k < |t.pending|
    requires forall j :: 0 <= j < |evs| ==> !evs[j].Loaded?
    ensures Gone(FixedRun(FixedStep(t, DeleteAnswered(k, true)), evs), t.pending[k].id)
  {
    FixedDeleteRemoves(t, k);
    GoneThroughRun(FixedStep(t, DeleteAnswered(k, true)), evs, t.pending[k].id);
  }

  lemma {:induction false} GoneThroughRun(t: Table, evs: seq<Event>, id: String)
    requires Gone(t, id)
    requires forall j :: 0 <= j < |evs| ==> !evs[j].Loaded?
    ensures Gone(FixedRun(t, evs), id)
    decreases |evs|
  {
    if |evs| > 0 {
      FixedStepKeepsGone(t, evs[0], id);
      GoneThroughRun(FixedStep(t, evs[0]), evs[1..], id);
    }
  }
}
