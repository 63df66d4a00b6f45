/** The category overview: articles grouped by their exact category string
    in order of first appearance (a `Map`'s insertion order), each group
    given a colour scheme by that position, then the groups sorted by
    article count, largest first, with ties kept in first-appearance order
    (`Array.prototype.sort` is stable). Also the category-name formatting
    and what a category card shows. */
module Categories {
  import opened Common
  import opened Entities

  /** Number of colour schemes the cards cycle through. */
  const SchemeCount := 6

  /** A category with its articles in input order. `position` is the index
      at which the category first appeared; the colour scheme is chosen
      from it before sorting. */
  datatype Group = Group(name: String, articles: seq<Article>, position: nat)

  /** The group's article count. */
  function Size(g: Group): nat { |g.articles| }

  /** Index of the group's colour scheme. */
  function ColorIndex(g: Group): (i: nat)
    ensures i < SchemeCount
  {
    g.position % SchemeCount
  }

  // ---------------------------------------------------------------------
  // Reference definitions
  // ---------------------------------------------------------------------

  /** Distinct categories in order of first appearance. */
  function Names(xs: seq<Article>): (ns: seq<String>)
    ensures forall i, j :: 0 <= i < j < |ns| ==> ns[i] != ns[j]
    ensures forall k :: 0 <= k < |xs| ==> xs[k].category in ns
    decreases |xs|
  {
    if |xs| == 0 then []
    else
      var ns := Names(xs[..|xs| - 1]);
      var c := xs[|xs| - 1].category;
      assert forall k :: 0 <= k < |xs| - 1 ==> xs[k] == xs[..|xs| - 1][k];
      if c in ns then ns else ns + [c]
  }

  /** The articles of category `name`, in input order. */
  function InCategory(xs: seq<Article>, name: String): (r: seq<Article>)
    ensures |r| <= |xs|
    decreases |xs|
  {
    if |xs| == 0 then []
    else
      InCategory(xs[..|xs| - 1], name)
        + (if xs[|xs| - 1].category == name then [xs[|xs| - 1]] else [])
  }

  /** A category's group holds exactly the articles of that category. */
  lemma {:induction false} InCategoryMembers(xs: seq<Article>, name: String)
    ensures forall a :: a in InCategory(xs, name) <==> a in xs && a.category == name
    decreases |xs|
  {
    if |xs| > 0 {
      var pre := xs[..|xs| - 1];
      InCategoryMembers(pre, name);
      assert xs == pre + [xs[|xs| - 1]];
    }
  }

  /** A category no article has collects nothing. */
  lemma {:induction false} InCategoryAbsent(xs: seq<Article>, name: String)
    requires name !in Names(xs)
    ensures InCategory(xs, name) == []
    decreases |xs|
  {
    if |xs| > 0 {
      var pre := xs[..|xs| - 1];
      assert name !in Names(pre);
      InCategoryAbsent(pre, name);
    }
  }

  // ---------------------------------------------------------------------
  // The grouping loop
  // ---------------------------------------------------------------------

  /** Index of the group named `name` at or after `from`, if any. */
  function FindGroup(gs: seq<Group>, name: String, from: nat): (r: Option<nat>)
    requires from <= |gs|
    ensures r.Some? ==> from <= r.value < |gs| && gs[r.value].name == name
    ensures r.None? ==> forall k :: from <= k < |gs| ==> gs[k].name != name
    decreases |gs| - from
  {
    if from == |gs| then None
    else if gs[from].name == name then Some(from)
    else FindGroup(gs, name, from + 1)
  }

  /** One `forEach` step: append the article to its category's group,
      creating the group at the end if the category is new. */
  function AddArticle(gs: seq<Group>, a: Article): seq<Group>
  {
    match FindGroup(gs, a.category, 0)
    case Some(i) => gs[i := gs[i].(articles := gs[i].articles + [a])]
    case None => gs + [Group(a.category, [a], |gs|)]
  }

  /** The `categoryMap` after the `forEach` over the articles, as a list of
      entries in insertion order. */
  function Grouped(xs: seq<Article>): seq<Group>
    decreases |xs|
  {
    if |xs| == 0 then [] else AddArticle(Grouped(xs[..|xs| - 1]), xs[|xs| - 1])
  }

  /** The grouping is the reference one: group `i` is the `i`-th distinct
      category, holding that category's articles in input order. */
  predicate GroupsMatch(gs: seq<Group>, xs: seq<Article>) {
    && |gs| == |Names(xs)|
    && forall i :: 0 <= i < |gs| ==>
         gs[i] == Group(Names(xs)[i], InCategory(xs, Names(xs)[i]), i)
  }

  lemma {:induction false} GroupedMatches(xs: seq<Article>)
    ensures GroupsMatch(Grouped(xs), xs)
    decreases |xs|
  {
    if |xs| > 0 {
      var pre := xs[..|xs| - 1];
      var a := xs[|xs| - 1];
      GroupedMatches(pre);
      var gs, ns := Grouped(pre), Names(pre);
      match FindGroup(gs, a.category, 0)
      case Some(j) =>
        AddExisting(pre, a, j);
      case None =>
        AddNew(pre, a);
    }
  }

  lemma {:induction false} AddExisting(pre: seq<Article>, a: Article, j: nat)
    requires GroupsMatch(Grouped(pre), pre)
    requires FindGroup(Grouped(pre), a.category, 0) == Some(j)
    ensures GroupsMatch(AddArticle(Grouped(pre), a), pre + [a])
  {
    var xs := pre + [a];
    var gs, ns := Grouped(pre), Names(pre);
    assert xs[..|xs| - 1] == pre;
    assert ns[j] == a.category;
    assert Names(xs) == ns;
    var r := AddArticle(gs, a);
    forall i | 0 <= i < |r|
      ensures r[i] == Group(ns[i], InCategory(xs, ns[i]), i)
    {
      if i == j {
        assert InCategory(xs, ns[i]) == InCategory(pre, ns[i]) + [a];
      } else {
        assert ns[i] != a.category;
        assert InCategory(xs, ns[i]) == InCategory(pre, ns[i]) + [];
      }
    }
  }

  lemma {:induction false} AddNew(pre: seq<Article>, a: Article)
    requires GroupsMatch(Grouped(pre), pre)
    requires FindGroup(Grouped(pre), a.category, 0).None?
    ensures GroupsMatch(AddArticle(Grouped(pre), a), pre + [a])
  {
    var xs := pre + [a];
    var gs, ns := Grouped(pre), Names(pre);
    assert xs[..|xs| - 1] == pre;
    assert forall k :: 0 <= k < |ns| ==> ns[k] == gs[k].name;
    assert a.category !in ns;
    assert Names(xs) == ns + [a.category];
    InCategoryAbsent(pre, a.category);
    var r := AddArticle(gs, a);
    forall i | 0 <= i < |r|
      ensures r[i] == Group(Names(xs)[i], InCategory(xs, Names(xs)[i]), i)
    {
      if i == |gs| {
        assert InCategory(xs, a.category) == [] + [a];
      } else {
        assert Names(xs)[i] == ns[i] != a.category;
        assert InCategory(xs, ns[i]) == InCategory(pre, ns[i]) + [];
      }
    }
  }

  /** Every article lands in exactly one group: the one named by its
      category. */
  lemma {:induction false} ArticleInOneGroup(xs: seq<Article>, k: nat)
    requires k < |xs|
    ensures exists i :: 0 <= i < |Grouped(xs)| && xs[k] in Grouped(xs)[i].articles
    ensures forall i :: 0 <= i < |Grouped(xs)| && xs[k] in Grouped(xs)[i].articles ==>
              Grouped(xs)[i].name == xs[k].category
  {
    var gs, ns := Grouped(xs), Names(xs);
    GroupedMatches(xs);
    var c := xs[k].category;
    var i :| 0 <= i < |ns| && ns[i] == c;
    InCategoryMembers(xs, c);
    assert xs[k] in gs[i].articles;
    forall i' | 0 <= i' < |gs| && xs[k] in gs[i'].articles
      ensures gs[i'].name == c
    {
      InCategoryMembers(xs, ns[i']);
    }
  }

  // ---------------------------------------------------------------------
  // Counts
  // ---------------------------------------------------------------------

  /** Total of the groups' counts. */
  function TotalSize(gs: seq<Group>): nat
    decreases |gs|
  {
    if |gs| == 0 then 0 else TotalSize(gs[..|gs| - 1]) + Size(gs[|gs| - 1])
  }

  lemma {:induction false} TotalSizeUpdate(gs: seq<Group>, j: nat, g: Group)
    requires j < |gs|
    ensures TotalSize(gs[j := g]) == TotalSize(gs) - Size(gs[j]) + Size(g)
    decreases |gs|
  {
    var n := |gs|;
    if j == n - 1 {
      assert gs[j := g][..n - 1] == gs[..n - 1];
    } else {
      assert gs[j := g][..n - 1] == gs[..n - 1][j := g];
      TotalSizeUpdate(gs[..n - 1], j, g);
    }
  }

  /** The counts shown on the cards add up to the number of articles. */
  lemma {:induction false} CountsSumToTotal(xs: seq<Article>)
    ensures TotalSize(Grouped(xs)) == |xs|
    decreases |xs|
  {
    if |xs| > 0 {
      var pre := xs[..|xs| - 1];
      var a := xs[|xs| - 1];
      CountsSumToTotal(pre);
      var gs := Grouped(pre);
      match FindGroup(gs, a.category, 0)
      case Some(j) =>
        TotalSizeUpdate(gs, j, gs[j].(articles := gs[j].articles + [a]));
      case None =>
        assert (gs + [Group(a.category, [a], |gs|)])[..|gs|] == gs;
    }
  }

  // ---------------------------------------------------------------------
  // Sorting by count
  // ---------------------------------------------------------------------

  /** `x` comes before `y` in the sorted list: a larger count, or an equal
      count and an earlier first appearance. */
  predicate Precedes(x: Group, y: Group) {
    Size(x) > Size(y) || (Size(x) == Size(y) && x.position < y.position)
  }

  /** Largest count first, ties in first-appearance order. */
  predicate Ordered(s: seq<Group>) {
    forall i, j :: 0 <= i < j < |s| ==> Precedes(s[i], s[j])
  }

  /** Largest count first. */
  predicate Descending(s: seq<Group>) {
    forall i, j :: 0 <= i < j < |s| ==> Size(s[i]) >= Size(s[j])
  }

  /** Groups with equal counts keep their first-appearance order. */
  predicate TiesInOrder(s: seq<Group>) {
    forall i, j :: 0 <= i < j < |s| && Size(s[i]) == Size(s[j]) ==> s[i].position < s[j].position
  }

  /** Positions strictly increase, as they do straight after grouping. */
  predicate PositionsIncrease(s: seq<Group>) {
    forall i, j :: 0 <= i < j < |s| ==> s[i].position < s[j].position
  }

  /** Place `g` before the first group whose count does not exceed its own. */
  function Insert(g: Group, s: seq<Group>): (r: seq<Group>)
    ensures |r| == |s| + 1
    ensures multiset(r) == multiset(s) + multiset{g}
    decreases |s|
  {
    if |s| == 0 || Size(g) >= Size(s[0]) then [g] + s
    else
      assert s == [s[0]] + s[1..];
      [s[0]] + Insert(g, s[1..])
  }

  /** `.sort((a, b) => b.count - a.count)`, as a stable insertion sort. */
  function SortByCount(s: seq<Group>): (r: seq<Group>)
    ensures multiset(r) == multiset(s)
    decreases |s|
  {
    if |s| == 0 then []
    else
      assert s == [s[0]] + s[1..];
      Insert(s[0], SortByCount(s[1..]))
  }

  /** A group that precedes `g` and every group of `s` precedes every group
      of the insertion. */
  lemma {:induction false} InsertBelow(x: Group, g: Group, s: seq<Group>)
    requires Precedes(x, g)
    requires forall k :: 0 <= k < |s| ==> Precedes(x, s[k])
    ensures forall k :: 0 <= k < |Insert(g, s)| ==> Precedes(x, Insert(g, s)[k])
    decreases |s|
  {
    if |s| > 0 && Size(g) < Size(s[0]) {
      InsertBelow(x, g, s[1..]);
      var t := Insert(g, s[1..]);
      assert Insert(g, s) == [s[0]] + t;
      forall k | 0 <= k < |s[1..]| ensures Precedes(x, s[1..][k]) {
        assert s[1..][k] == s[k + 1];
      }
    } else {
      forall k | 0 <= k < |[g] + s| ensures Precedes(x, ([g] + s)[k]) {
        if k > 0 { assert ([g] + s)[k] == s[k - 1]; }
      }
    }
  }

  lemma {:induction false} InsertKeepsOrder(g: Group, s: seq<Group>)
    requires Ordered(s)
    requires forall k :: 0 <= k < |s| ==> g.position < s[k].position
    ensures Ordered(Insert(g, s))
    decreases |s|
  {
    if |s| > 0 && Size(g) < Size(s[0]) {
      var t := Insert(g, s[1..]);
      assert Ordered(s[1..]) by {
        forall i, j | 0 <= i < j < |s[1..]| ensures Precedes(s[1..][i], s[1..][j]) {
          assert s[1..][i] == s[i + 1] && s[1..][j] == s[j + 1];
        }
      }
      assert forall k :: 0 <= k < |s[1..]| ==> g.position < s[1..][k].position;
      InsertKeepsOrder(g, s[1..]);
      assert forall k :: 0 <= k < |s[1..]| ==> Precedes(s[0], s[1..][k]);
      InsertBelow(s[0], g, s[1..]);
      var r := [s[0]] + t;
      forall i, j | 0 <= i < j < |r| ensures Precedes(r[i], r[j]) {
        assert r[j] == t[j - 1];
        if i > 0 { assert r[i] == t[i - 1]; }
      }
    } else if |s| > 0 {
      var r := [g] + s;
      forall i, j | 0 <= i < j < |r| ensures Precedes(r[i], r[j]) {
        assert r[j] == s[j - 1];
        if i > 0 {
          assert r[i] == s[i - 1];
        } else if j > 1 {
          assert Precedes(s[0], s[j - 1]);
        }
      }
    }
  }

  /** Sorting keeps a lower bound on the positions. */
  lemma {:induction false} SortAbove(p: nat, s: seq<Group>)
    requires forall k :: 0 <= k < |s| ==> p < s[k].position
    ensures forall k :: 0 <= k < |SortByCount(s)| ==> p < SortByCount(s)[k].position
    decreases |s|
  {
    if |s| > 0 {
      assert forall k :: 0 <= k < |s[1..]| ==> p < s[1..][k].position;
      SortAbove(p, s[1..]);
      InsertAbove(p, s[0], SortByCount(s[1..]));
    }
  }

  lemma {:induction false} InsertAbove(p: nat, g: Group, s: seq<Group>)
    requires p < g.position
    requires forall k :: 0 <= k < |s| ==> p < s[k].position
    ensures forall k :: 0 <= k < |Insert(g, s)| ==> p < Insert(g, s)[k].position
    decreases |s|
  {
    if |s| > 0 && Size(g) < Size(s[0]) {
      assert forall k :: 0 <= k < |s[1..]| ==> p < s[1..][k].position;
      InsertAbove(p, g, s[1..]);
      var r := [s[0]] + Insert(g, s[1..]);
      assert forall k :: 1 <= k < |r| ==> r[k] == Insert(g, s[1..])[k - 1];
    } else {
      var r := [g] + s;
      assert forall k :: 1 <= k < |r| ==> r[k] == s[k - 1];
    }
  }

  /** Sorting a list whose positions increase yields counts in
      non-increasing order with ties in first-appearance order. */
  lemma {:induction false} SortByCountOrdered(s: seq<Group>)
    requires PositionsIncrease(s)
    ensures Ordered(SortByCount(s))
    decreases |s|
  {
    if |s| > 0 {
      var rest := SortByCount(s[1..]);
      assert PositionsIncrease(s[1..]) by {
        forall i, j | 0 <= i < j < |s[1..]| ensures s[1..][i].position < s[1..][j].position {
          assert s[1..][i] == s[i + 1] && s[1..][j] == s[j + 1];
        }
      }
      SortByCountOrdered(s[1..]);
      assert forall k :: 0 <= k < |s[1..]| ==> s[0].position < s[1..][k].position by {
        forall k | 0 <= k < |s[1..]| ensures s[0].position < s[1..][k].position {
          assert s[1..][k] == s[k + 1];
        }
      }
      SortAbove(s[0].position, s[1..]);
      InsertKeepsOrder(s[0], rest);
    }
  }

  /** The `categories` memo: grouped, then sorted by count. */
  function CategoryList(xs: seq<Article>): seq<Group>
  {
    SortByCount(Grouped(xs))
  }

  /** The overview lists each group of the grouping once, largest count
      first, ties in first-appearance order. */
  lemma {:induction false} CategoryListOrdered(xs: seq<Article>)
    ensures multiset(CategoryList(xs)) == multiset(Grouped(xs))
    ensures Descending(CategoryList(xs)) && TiesInOrder(CategoryList(xs))
  {
    GroupedMatches(xs);
    assert PositionsIncrease(Grouped(xs));
    SortByCountOrdered(Grouped(xs));
  }

  // ---------------------------------------------------------------------
  // Cards
  // ---------------------------------------------------------------------

  /** `formatCategoryName`: first character upper-case, the rest lower-case. */
  function FormatCategoryName(name: String): (r: String)
    ensures |r| == |name|
    ensures |name| > 0 ==> r[0] == UpperChar(name[0])
    ensures forall i :: 1 <= i < |name| ==> r[i] == LowerChar(name[i])
  {
    if |name| == 0 then [] else Upper(name[..1]) + Lower(name[1..])
  }

  /** Formatting a formatted name changes nothing. */
  lemma {:induction false} FormatCategoryNameIdempotent(name: String)
    ensures FormatCategoryName(FormatCategoryName(name)) == FormatCategoryName(name)
  {
    var r := FormatCategoryName(name);
    var r2 := FormatCategoryName(r);
    if |name| > 0 {
      forall i | 0 <= i < |r|
        ensures r2[i] == r[i]
      {
        if i == 0 {
          assert UpperChar(UpperChar(name[0])) == UpperChar(name[0]);
        } else {
          assert LowerChar(LowerChar(name[i])) == LowerChar(name[i]);
        }
      }
    }
  }

  /** What a category card shows: the formatted name, the count, up to
      three article titles, and the "popular" badge. */
  datatype Card = Card(title: String, count: nat, preview: seq<String>, popular: bool, scheme: nat)

  function Titles(xs: seq<Article>): (ts: seq<String>)
    ensures |ts| == |xs|
    ensures forall k :: 0 <= k < |xs| ==> ts[k] == xs[k].title
  {
    seq(|xs|, k requires 0 <= k < |xs| => xs[k].title)
  }

  /** The card for the group at `index` in the sorted list. */
  function CardFor(g: Group, index: nat): (c: Card)
    ensures c.preview == Titles(g.articles[..Min(3, |g.articles|)])
    ensures c.popular <==> index == 0
    ensures c.count == |g.articles|
  {
    SliceNatural(g.articles, 0, 3);
    Card(FormatCategoryName(g.name), |g.articles|, Titles(Slice(g.articles, 0, 3)), index == 0, ColorIndex(g))
  }
}
