/** The projects page and the project cards: the free-text search over
    title, description and technologies, six projects per page with
    Previous/Next/number buttons, the results line, the technology badges
    with their "+k" overflow badge, and the rewriting of relative image
    paths to the `/works/` folder. */
module Projects {
  import opened Common
  import opened Entities
  import opened Pagination

  // ---------------------------------------------------------------------
  // Search
  // ---------------------------------------------------------------------

  /** Some technology of the list includes `q`, ignoring case. */
  predicate SomeTechnology(techs: seq<String>, q: String) {
    exists k :: 0 <= k < |techs| && Contains(Lower(techs[k]), Lower(q))
  }

  /** The search predicate: title, description or any technology includes
      the query, ignoring case. */
  predicate MatchesQuery(p: Project, q: String) {
    || Contains(Lower(p.title), Lower(q))
    || Contains(Lower(p.description), Lower(q))
    || SomeTechnology(p.technologies, q)
  }

  /** `filteredProjects`. */
  function Search(ps: seq<Project>, q: String): (r: seq<Project>)
    ensures |r| <= |ps|
  {
    Keep(ps, (x: Project) => MatchesQuery(x, q))
  }

  /** The search keeps exactly the matching projects, in their original
      order. */
  lemma {:induction false} SearchSpec(ps: seq<Project>, q: String)
    ensures forall x :: x in Search(ps, q) <==>
              && x in ps
              && (|| Contains(Lower(x.title), Lower(q))
                  || Contains(Lower(x.description), Lower(q))
                  || exists k :: 0 <= k < |x.technologies| && Contains(Lower(x.technologies[k]), Lower(q)))
    ensures Subsequence(Search(ps, q), ps)
  {
    KeepMembers(ps, (x: Project) => MatchesQuery(x, q));
    KeepInOrder(ps, (x: Project) => MatchesQuery(x, q));
  }

  /** An empty query keeps every project. */
  lemma {:induction false} EmptyQueryKeepsAll(ps: seq<Project>)
    ensures Search(ps, "") == ps
  {
    forall k | 0 <= k < |ps| ensures MatchesQuery(ps[k], "") {
      assert Lower("") == [];
      ContainsEmpty(Lower(ps[k].title));
    }
    KeepAll(ps, (x: Project) => MatchesQuery(x, ""));
  }

  /** Typing more characters never brings back a project: whatever matches
      `q + more` matches `q`. */
  lemma {:induction false} LongerQueryNarrows(ps: seq<Project>, q: String, more: String)
    ensures forall x :: x in Search(ps, q + more) ==> x in Search(ps, q)
  {
    LowerAppend(q, more);
    SearchSpec(ps, q + more);
    SearchSpec(ps, q);
    forall x | x in Search(ps, q + more) ensures x in Search(ps, q) {
      var lq, lm := Lower(q), Lower(more);
      if Contains(Lower(x.title), lq + lm) {
        ContainsPrefixOf(Lower(x.title), lq, lm);
      } else if Contains(Lower(x.description), lq + lm) {
        ContainsPrefixOf(Lower(x.description), lq, lm);
      } else {
        var k :| 0 <= k < |x.technologies| && Contains(Lower(x.technologies[k]), lq + lm);
        ContainsPrefixOf(Lower(x.technologies[k]), lq, lm);
      }
    }
  }

  // ---------------------------------------------------------------------
  // Page state
  // ---------------------------------------------------------------------

  /** The page's state over a fixed project list. */
  datatype View = View(query: String, page: int)

  datatype Event =
    | QueryEdited(q: String)  // the search box changed; the effect resets the page
    | NextClicked             // `goToNextPage`
    | PreviousClicked         // `goToPreviousPage`
    | PageClicked(n: int)     // `goToPage` from a numbered button

  /** `totalPages`. */
  function TotalPages(ps: seq<Project>, v: View): nat {
    CeilDiv(|Search(ps, v.query)|, ProjectsPerPage)
  }

  /** `currentProjects`. */
  function Shown(ps: seq<Project>, v: View): seq<Project> {
    PageSlice(Search(ps, v.query), v.page, ProjectsPerPage)
  }

  function Step(ps: seq<Project>, v: View, e: Event): (r: View)
  {
    var total := TotalPages(ps, v);
    match e
    case QueryEdited(q) => View(q, 1)
    case NextClicked => if v.page < total then v.(page := v.page + 1) else v
    case PreviousClicked => if v.page > 1 then v.(page := v.page - 1) else v
    case PageClicked(n) => v.(page := n)
  }

  /** A numbered button for page `n` is on screen: the bar is shown (more
      than one page) and page `n` is shown rather than hidden or replaced
      by an ellipsis. */
  predicate HasButton(ps: seq<Project>, v: View, n: int) {
    var total := TotalPages(ps, v);
    total > 1 && 1 <= n <= total && ProjectCell(v.page, total, n) == Some(Num(n))
  }

  /** The events a user can cause: any query, the arrows, and the numbered
      buttons on screen. */
  predicate Possible(ps: seq<Project>, v: View, e: Event) {
    e.PageClicked? ==> HasButton(ps, v, e.n)
  }

  function Run(ps: seq<Project>, v: View, evs: seq<Event>): View
    decreases |evs|
  {
    if |evs| == 0 then v else Run(ps, Step(ps, v, evs[0]), evs[1..])
  }

  /** The arrows act exactly when their guard holds, and editing the query
      goes back to page 1. */
  lemma {:induction false} StepSpec(ps: seq<Project>, v: View)
    ensures Step(ps, v, NextClicked).page == (if v.page < TotalPages(ps, v) then v.page + 1 else v.page)
    ensures Step(ps, v, PreviousClicked).page == (if v.page > 1 then v.page - 1 else v.page)
    ensures forall q :: Step(ps, v, QueryEdited(q)) == View(q, 1)
  {
  }

  /** The page is a real page, or page 1 when nothing matches. */
  predicate PageValid(ps: seq<Project>, v: View) {
    1 <= v.page <= Max(1, TotalPages(ps, v))
  }

  /** Every possible event keeps the page valid. */
  lemma {:induction false} StepKeepsPageValid(ps: seq<Project>, v: View, e: Event)
    requires PageValid(ps, v) && Possible(ps, v, e)
    ensures PageValid(ps, Step(ps, v, e))
  {
  }

  predicate AllPossible(ps: seq<Project>, v: View, evs: seq<Event>)
    decreases |evs|
  {
    |evs| == 0 || (Possible(ps, v, evs[0]) && AllPossible(ps, Step(ps, v, evs[0]), evs[1..]))
  }

  /** From the initial view, any run of possible events keeps the page
      valid, so a non-empty result always shows one to six projects. */
  lemma {:induction false} RunKeepsPageValid(ps: seq<Project>, v: View, evs: seq<Event>)
    requires PageValid(ps, v) && AllPossible(ps, v, evs)
    ensures PageValid(ps, Run(ps, v, evs))
    ensures |Search(ps, Run(ps, v, evs).query)| > 0 ==> 1 <= |Shown(ps, Run(ps, v, evs))| <= ProjectsPerPage
    decreases |evs|
  {
    if |evs| > 0 {
      StepKeepsPageValid(ps, v, evs[0]);
      RunKeepsPageValid(ps, Step(ps, v, evs[0]), evs[1..]);
    } else if |Search(ps, v.query)| > 0 {
      PageSliceOfValidPage(Search(ps, v.query), v.page, ProjectsPerPage);
    }
  }

  // ---------------------------------------------------------------------
  // Results line
  // ---------------------------------------------------------------------

  /** "Showing a-b of n project(s)": shown whatever `n` is. */
  datatype Results = Results(first: int, last: int, of: nat, plural: bool)

  function ResultsLine(p: int, n: nat): (r: Results)
  {
    var start := (p - 1) * ProjectsPerPage;
    Results(start + 1, Min(start + ProjectsPerPage, n), n, n != 1)
  }

  /** On a valid page the line names exactly the projects shown; with no
      match it reads "1-0 of 0 projects". */
  lemma {:induction false} ResultsLineMatchesShown(ps: seq<Project>, v: View)
    requires PageValid(ps, v)
    ensures var n := |Search(ps, v.query)|;
            var r := ResultsLine(v.page, n);
            && (n > 0 ==> 1 <= r.first <= r.last <= n && r.last - r.first + 1 == |Shown(ps, v)|)
            && (n > 0 ==> (r.first, r.last) == RangeOf(v.page, ProjectsPerPage, n))
            && (n == 0 ==> r == Results(1, 0, 0, true))
            && (r.plural <==> n != 1)
  {
    var items := Search(ps, v.query);
    if |items| > 0 {
      ShowingMatchesSlice(items, v.page, ProjectsPerPage);
      assert v.page * ProjectsPerPage == (v.page - 1) * ProjectsPerPage + ProjectsPerPage;
    }
  }

  // ---------------------------------------------------------------------
  // Technology badges
  // ---------------------------------------------------------------------

  /** The technology badges of a card: the first `limit` technologies and,
      when some are left over, a "+k" badge. */
  datatype Badges = Badges(shown: seq<String>, more: Option<nat>)

  function TechnologyBadges(techs: seq<String>, limit: nat): (b: Badges)
    ensures b.shown == techs[..Min(limit, |techs|)]
    ensures b.more.Some? <==> |techs| > limit
    ensures b.more.Some? ==> |b.shown| + b.more.value == |techs|
  {
    SliceNatural(techs, 0, limit);
    Badges(Slice(techs, 0, limit), if |techs| > limit then Some(|techs| - limit) else None)
  }

  /** The home-page and project cards show three badges. */
  const CardBadgeLimit := 3
  /** The projects-page grid cards show four. */
  const GridBadgeLimit := 4

  /** The modal's list: every technology, in order. */
  function ModalTechnologies(p: Project): seq<String> {
    p.technologies
  }

  /** A card's badges are the opening run of the modal's list, and the
      shown badges plus the "+k" count account for the whole list. */
  lemma {:induction false} BadgesAccountForModal(p: Project, limit: nat)
    ensures var b := TechnologyBadges(p.technologies, limit);
            && b.shown + ModalTechnologies(p)[|b.shown|..] == ModalTechnologies(p)
            && |b.shown| + b.more.GetOr(0) == |ModalTechnologies(p)|
  {
    var b := TechnologyBadges(p.technologies, limit);
    assert b.shown + p.technologies[|b.shown|..] == p.technologies;
  }

  /** More badge room never shows fewer badges, and what the smaller card
      shows is an opening run of what the larger one shows. */
  lemma {:induction false} BadgeLimitsNest(techs: seq<String>)
    ensures var small := TechnologyBadges(techs, CardBadgeLimit).shown;
            var large := TechnologyBadges(techs, GridBadgeLimit).shown;
            |small| <= |large| && large[..|small|] == small
  {
  }

  // ---------------------------------------------------------------------
  // Image paths
  // ---------------------------------------------------------------------

  const WorksFolder: String := "/works/"

  /** `imageUrl`: a string starting with "http" is used as it is; anything
      else is taken from the `/works/` folder by its last path segment. */
  function ImageUrl(image: String): (url: String)
    ensures StartsWith(image, "http") ==> url == image
    ensures !StartsWith(image, "http") ==>
              && StartsWith(url, WorksFolder)
              && url[|WorksFolder|..] == Last(Split(image, '/'))
              && '/' !in url[|WorksFolder|..]
  {
    if StartsWith(image, "http") then image
    else WorksFolder + Last(Split(image, '/'))
  }

  /** The file name is the last segment: everything after the last "/". */
  lemma {:induction false} ImageUrlKeepsFileName(dir: String, name: String)
    requires !StartsWith(dir + "/" + name, "http")
    requires '/' !in name
    ensures ImageUrl(dir + "/" + name) == WorksFolder + name
  {
    var parts := Split(dir, '/');
    JoinSplit(dir, '/');
    SplitJoin(parts + [name], '/');
    JoinAppend(parts, name, '/');
  }

  lemma {:induction false} JoinAppend(parts: seq<String>, last: String, sep: char)
    requires |parts| >= 1
    ensures Join(parts + [last], sep) == Join(parts, sep) + [sep] + last
    decreases |parts|
  {
    if |parts| == 1 {
      assert (parts + [last])[1..] == [last];
    } else {
      assert (parts + [last])[1..] == parts[1..] + [last];
      JoinAppend(parts[1..], last, sep);
    }
  }

  /** Rewriting a rewritten path changes nothing. */
  lemma {:induction false} ImageUrlIdempotent(image: String)
    ensures ImageUrl(ImageUrl(image)) == ImageUrl(image)
  {
    if !StartsWith(image, "http") {
      var name := Last(Split(image, '/'));
      var url := WorksFolder + name;
      var tail := "works" + ['/'] + name;
      assert url == [] + ['/'] + tail;
      assert !StartsWith(url, "http") by { assert url[0] == '/'; }
      SplitSepPrefix([], tail, '/');
      SplitSepPrefix("works", name, '/');
      SplitNoSep(name, '/');
      assert Split(url, '/') == [[], "works", name];
    }
  }
}
