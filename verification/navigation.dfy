/** The navigation bar: which menu item is highlighted for the current
    path, the mobile menu's open flag, the "scrolled" style, and where a
    click on the logo scrolls to. */
module Navigation {
  import opened Common

  /** The names a menu item can have. The last two exist in the type but
      no menu item carries them. */
  datatype MenuItemName = Home | ProjectsItem | ArticlesItem | CategoryRoute | DetailRoute

  datatype MenuItem = MenuItem(name: MenuItemName, path: String)

  /** The three menu items, in display order. */
  const MenuItems: seq<MenuItem> := [
    MenuItem(Home, "/"),
    MenuItem(ProjectsItem, "/projects"),
    MenuItem(ArticlesItem, "/articles/category")
  ]

  /** `activeItem`: the root is home, then the "/projects" and "/articles"
      prefixes, and everything else falls back to home. */
  function ActiveItem(path: String): (n: MenuItemName)
    ensures n == Home || n == ProjectsItem || n == ArticlesItem
    ensures n == ProjectsItem <==> StartsWith(path, "/projects")
    ensures n == ArticlesItem <==> StartsWith(path, "/articles") && !StartsWith(path, "/projects")
  {
    if path == "/" then Home
    else if StartsWith(path, "/projects") then ProjectsItem
    else if StartsWith(path, "/articles") then ArticlesItem
    else Home
  }

  /** Each menu item's own path highlights that item, and exactly one item
      is highlighted on any path. */
  lemma {:induction false} MenuItemsHighlightThemselves(path: String)
    ensures forall k :: 0 <= k < |MenuItems| ==> ActiveItem(MenuItems[k].path) == MenuItems[k].name
    ensures exists k :: 0 <= k < |MenuItems| && MenuItems[k].name == ActiveItem(path)
    ensures forall j, k :: 0 <= j < k < |MenuItems| ==> MenuItems[j].name != MenuItems[k].name
  {
    assert ActiveItem("/") == Home;
    assert StartsWith("/projects", "/projects");
    assert StartsWith("/articles/category", "/articles");
    assert !StartsWith("/articles/category", "/projects") by {
      assert "/articles/category"[1] != "/projects"[1];
    }
    var n := ActiveItem(path);
    if n == Home { assert MenuItems[0].name == n; }
    else if n == ProjectsItem { assert MenuItems[1].name == n; }
    else { assert MenuItems[2].name == n; }
  }

  /** Paths under a section highlight that section: any path extending
      "/projects" or "/articles" (a category or an article page). */
  lemma {:induction false} SectionPathsHighlightSection(rest: String)
    ensures ActiveItem("/projects" + rest) == ProjectsItem
    ensures ActiveItem("/articles" + rest) == ArticlesItem
  {
    assert ("/projects" + rest)[..9] == "/projects";
    assert ("/articles" + rest)[..9] == "/articles";
    assert ("/articles" + rest)[1] != "/projects"[1];
  }

  /** The navbar's own state. */
  datatype Bar = Bar(mobileMenuOpen: bool, scrolled: bool)

  datatype Event =
    | Scrolled(scrollY: int)   // a scroll event at this offset
    | MenuToggled              // the burger or close button
    | Navigated(path: String)  // a mobile menu item was chosen

  function Step(b: Bar, e: Event): (r: Bar)
    ensures e.Scrolled? ==> (r.scrolled <==> e.scrollY > 20) && r.mobileMenuOpen == b.mobileMenuOpen
    ensures e.MenuToggled? ==> r.mobileMenuOpen == !b.mobileMenuOpen && r.scrolled == b.scrolled
    ensures e.Navigated? ==> !r.mobileMenuOpen && r.scrolled == b.scrolled
  {
    match e
    case Scrolled(y) => b.(scrolled := y > 20)
    case MenuToggled => b.(mobileMenuOpen := !b.mobileMenuOpen)
    case Navigated(_) => b.(mobileMenuOpen := false)
  }

  /** Toggling twice restores the menu; navigating closes it whatever its
      state was. */
  lemma {:induction false} ToggleTwiceRestores(b: Bar)
    ensures Step(Step(b, MenuToggled), MenuToggled) == b
    ensures Step(Step(b, MenuToggled), Navigated("/")) == Step(b, Navigated("/"))
  {
  }

  /** Where `handleLogo` scrolls to: the bottom (`scrollHeight`) or the top.
      `maxScroll / 2` is compared as `2 * scrollTop < maxScroll`. */
  function LogoTarget(scrollTop: int, scrollHeight: int, clientHeight: int): (target: int)
    ensures target == 0 || target == scrollHeight
  {
    var maxScroll := scrollHeight - clientHeight;
    var nearTop := scrollTop <= 50;
    var nearBottom := maxScroll - scrollTop <= 50;
    if nearTop then scrollHeight
    else if nearBottom then 0
    else if 2 * scrollTop < maxScroll then scrollHeight
    else 0
  }

  /** The logo sends the page to the far end: near the top it goes to the
      bottom, otherwise near the bottom it goes to the top, and in between
      to whichever end is further away. */
  lemma {:induction false} LogoGoesToFarEnd(scrollTop: int, scrollHeight: int, clientHeight: int)
    ensures var maxScroll := scrollHeight - clientHeight;
            var t := LogoTarget(scrollTop, scrollHeight, clientHeight);
            && (scrollTop <= 50 ==> t == scrollHeight)
            && (scrollTop > 50 && maxScroll - scrollTop <= 50 ==> t == 0)
            && (scrollTop > 50 && maxScroll - scrollTop > 50 ==>
                  t == (if scrollTop < maxScroll - scrollTop then scrollHeight else 0))
  {
  }

  /** How far apart two scroll offsets are. */
  function Distance(a: int, b: int): nat {
    if a <= b then b - a else a - b
  }

  /** Where the page comes to rest: the browser stops a scroll at
      `scrollHeight - clientHeight`. */
  function Landing(target: int, scrollHeight: int, clientHeight: int): int {
    Min(target, scrollHeight - clientHeight)
  }

  /** Away from both ends, the logo lands on the end of the page that is at
      least as far from the current offset as the other end; it always
      lands on one of the two ends. */
  lemma {:induction false} LogoLandsFarther(scrollTop: int, scrollHeight: int, clientHeight: int)
    requires 0 <= clientHeight <= scrollHeight
    requires 0 <= scrollTop <= scrollHeight - clientHeight
    ensures var maxScroll := scrollHeight - clientHeight;
            var land := Landing(LogoTarget(scrollTop, scrollHeight, clientHeight), scrollHeight, clientHeight);
            var other := if land == 0 then maxScroll else 0;
            && (land == 0 || land == maxScroll)
            && (scrollTop > 50 && maxScroll - scrollTop > 50 ==>
                  Distance(scrollTop, land) >= Distance(scrollTop, other))
  {
  }
}
