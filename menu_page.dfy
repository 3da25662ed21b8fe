/**
 * The state the site's menu script keeps and changes: the scroll-lock
 * counter and the `no-scroll` class, the mobile menu, the search overlay and
 * its results, the loaded search data, and the mobile-navigation
 * accordions. The DOM is reduced to the booleans and lists it shows.
 */
module MenuPage {
  import opened Wrappers
  import opened JsStrings
  import opened Sequences
  import opened SearchText

  /** Which of the looked-up elements the page has. `menu` stands for the
      menu button, the mobile menu and its icon container all being there. */
  datatype Elements = Elements(menu: bool, overlay: bool, results: bool, emptyMessage: bool)

  datatype MenuIcon = MenuBars | CloseCross

  datatype Accordion = Accordion(hasSubnav: bool, expanded: bool)

  /** Everything the script changes, as a value. */
  datatype PageView = PageView(
    scrollLockCount: int,
    noScroll: bool,              // `no-scroll` on the body
    menuExpanded: bool,          // `aria-expanded` of the menu button; `aria-hidden` of the menu is its negation
    menuHidden: bool,            // `hidden` on the mobile menu, once its timer has run
    menuIcon: MenuIcon,
    overlayHidden: bool,         // `hidden` (and `aria-hidden`) on the search overlay
    searchPosts: seq<SearchPost>,
    results: seq<ResultEntry>,   // the rendered result list
    emptyShown: bool,            // the "no results" message is displayed
    accordions: seq<Accordion>)

  // ---------------------------------------------------------------------
  // The script's functions as transformations of the view
  // ---------------------------------------------------------------------

  /** `lockScroll()`. */
  function Lock(v: PageView): PageView {
    v.(scrollLockCount := v.scrollLockCount + 1, noScroll := true)
  }

  /** `unlockScroll()`. */
  function Unlock(v: PageView): PageView {
    var n := if v.scrollLockCount - 1 < 0 then 0 else v.scrollLockCount - 1;
    v.(scrollLockCount := n, noScroll := if n == 0 then false else v.noScroll)
  }

  /** `setMenuState(isOpen)`. */
  function MenuState(el: Elements, v: PageView, isOpen: bool): PageView {
    if !el.menu then v
    else
      var w := v.(menuExpanded := isOpen, menuHidden := !isOpen, menuIcon := if isOpen then CloseCross else MenuBars);
      if isOpen then Lock(w) else Unlock(w)
  }

  /** `renderSearchResults(items)`. */
  function Render(el: Elements, v: PageView, items: seq<SearchPost>): PageView {
    if !el.results || !el.emptyMessage then v
    else
      var r := RenderSearchResults(items);
      v.(results := r.entries, emptyShown := r.emptyShown)
  }

  /** `filterPosts(query)`. */
  function Filtered(el: Elements, v: PageView, query: JsString): PageView {
    Render(el, v, FilterPosts(v.searchPosts, query))
  }

  /** `openSearch()`. */
  function Opened(el: Elements, v: PageView): PageView {
    if !el.overlay then v
    else Filtered(el, Lock(v.(overlayHidden := false)), "")
  }

  /** `closeSearch()`. */
  function Closed(el: Elements, v: PageView): PageView {
    if !el.overlay then v
    else Unlock(v.(overlayHidden := true, emptyShown := if el.emptyMessage then false else v.emptyShown))
  }

  /** `toggleSearch()`. */
  function ToggledSearch(el: Elements, v: PageView): PageView {
    if !el.overlay then v
    else if v.overlayHidden then Opened(el, v)
    else Closed(el, v)
  }

  /** The Escape key: close the search if it is showing, else the menu. */
  function EscapePressed(el: Elements, v: PageView): PageView {
    if el.overlay && !v.overlayHidden then Closed(el, v)
    else MenuState(el, v, false)
  }

  /** What `#post-search-data` held when the script loaded. */
  datatype SearchData = NoScript | EmptyText | Malformed | Parsed(posts: seq<SearchPost>)

  /** `loadSearchData()`: an empty script parses as `[]`, a malformed one
      is caught and also gives `[]`. */
  function Loaded(v: PageView, data: SearchData): PageView {
    match data
    case NoScript => v
    case EmptyText => v.(searchPosts := [])
    case Malformed => v.(searchPosts := [])
    case Parsed(posts) => v.(searchPosts := posts)
  }

  /** A click on the i-th `.mobile-subnav-toggle`. */
  function AccordionToggled(v: PageView, i: nat): PageView
    requires i < |v.accordions|
  {
    var a := v.accordions[i];
    if !a.hasSubnav then v
    else v.(accordions := v.accordions[i := Accordion(true, !a.expanded)])
  }

  // ---------------------------------------------------------------------
  // Properties
  // ---------------------------------------------------------------------

  /** `unlockScroll` never takes the count below zero and clears
      `no-scroll` only when the count reaches zero. */
  lemma UnlockClamps(v: PageView)
    ensures var w := Unlock(v);
            && w.scrollLockCount >= 0
            && w.scrollLockCount == (if v.scrollLockCount >= 1 then v.scrollLockCount - 1 else 0)
            && (w.noScroll != v.noScroll ==> w.scrollLockCount == 0 && !w.noScroll)
  {
  }

  /** `lockScroll` adds exactly one and sets `no-scroll`; followed by
      `unlockScroll` it restores any count the page can have. */
  lemma LockThenUnlock(v: PageView)
    requires v.scrollLockCount >= 0
    ensures Lock(v).scrollLockCount == v.scrollLockCount + 1 && Lock(v).noScroll
    ensures Unlock(Lock(v)).scrollLockCount == v.scrollLockCount
    ensures Unlock(Lock(v)).noScroll <==> v.scrollLockCount > 0
  {
  }

  /** The page is scroll-locked exactly while the menu or the search is
      open, and the counter counts the open ones. */
  predicate Balanced(el: Elements, v: PageView) {
    && v.scrollLockCount == (if v.menuExpanded then 1 else 0) + (if v.overlayHidden then 0 else 1)
    && (v.noScroll <==> v.scrollLockCount > 0)
    && v.menuHidden == !v.menuExpanded
    && (!el.menu ==> !v.menuExpanded)
    && (!el.overlay ==> v.overlayHidden)
  }

  /** The events the page handles. */
  datatype Event =
    | MenuButton                // click on the menu button
    | MenuLink                  // click on a link inside the mobile menu
    | EscapeKey
    | SearchButton              // either search button
    | SearchClose               // the close button, or a click on the overlay itself
    | SearchInput(query: JsString)
    | AccordionButton(index: nat)

  /** Which events the browser can deliver: a hidden element takes no
      clicks, and an accordion click names an existing button. */
  predicate Enabled(el: Elements, v: PageView, e: Event) {
    match e
    case MenuLink => !v.menuHidden
    case SearchClose => !v.overlayHidden
    case AccordionButton(i) => i < |v.accordions|
    case _ => true
  }

  function Step(el: Elements, v: PageView, e: Event): PageView
    requires Enabled(el, v, e)
  {
    match e
    case MenuButton => MenuState(el, v, !v.menuExpanded)
    case MenuLink => MenuState(el, v, false)
    case EscapeKey => EscapePressed(el, v)
    case SearchButton => ToggledSearch(el, v)
    case SearchClose => Closed(el, v)
    case SearchInput(q) => if el.overlay then Filtered(el, v, q) else v
    case AccordionButton(i) => AccordionToggled(v, i)
  }

  /** Every event the browser can deliver keeps the lock balanced. */
  lemma StepKeepsBalance(el: Elements, v: PageView, e: Event)
    requires Balanced(el, v) && Enabled(el, v, e)
    ensures Balanced(el, Step(el, v, e))
  {
  }

  /** Opening the search always starts from the first six posts; closing it
      hides the empty message. */
  lemma SearchOpensOnDefaults(el: Elements, v: PageView)
    requires el.overlay && el.results && el.emptyMessage && v.overlayHidden
    ensures var w := ToggledSearch(el, v);
            && !w.overlayHidden
            && w.results == RenderSearchResults(Take(v.searchPosts, DefaultCount)).entries
            && (w.emptyShown <==> v.searchPosts == [])
            && !ToggledSearch(el, w).emptyShown
  {
  }

  /** Without the search overlay the script registers no input listener,
      so typing in the search field changes nothing. */
  lemma InputIgnoredWithoutOverlay(el: Elements, v: PageView, q: JsString)
    requires !el.overlay
    ensures Step(el, v, SearchInput(q)) == v
  {
  }

  /** An accordion click flips only that accordion, and only when it has a
      sub-navigation. */
  lemma AccordionFlipsOne(v: PageView, i: nat)
    requires i < |v.accordions|
    ensures var w := AccordionToggled(v, i);
            && |w.accordions| == |v.accordions|
            && (forall j | 0 <= j < |v.accordions| && j != i :: w.accordions[j] == v.accordions[j])
            && w.accordions[i].expanded == (v.accordions[i].expanded != v.accordions[i].hasSubnav)
            && AccordionToggled(w, i) == v
  {
  }

  // ---------------------------------------------------------------------
  // The page object
  // ---------------------------------------------------------------------

  class Page {
    const elements: Elements
    var scrollLockCount: int
    var noScroll: bool
    var menuExpanded: bool
    var menuHidden: bool
    var menuIcon: MenuIcon
    var overlayHidden: bool
    var searchPosts: seq<SearchPost>
    var results: seq<ResultEntry>
    var emptyShown: bool
    var accordions: seq<Accordion>

    function View(): PageView
      reads this
    {
      PageView(scrollLockCount, noScroll, menuExpanded, menuHidden, menuIcon, overlayHidden,
               searchPosts, results, emptyShown, accordions)
    }

    ghost predicate Valid()
      reads this
    {
      Balanced(elements, View())
    }

    /** The page as loaded: nothing open, nothing locked, no search data
      yet. */
    constructor (elements: Elements, accordions: seq<Accordion>)
      ensures Valid()
      ensures this.elements == elements
      ensures View() == PageView(0, false, false, true, MenuBars, true, [], [], false, accordions)
    {
      this.elements := elements;
      scrollLockCount := 0;
      noScroll := false;
      menuExpanded := false;
      menuHidden := true;
      menuIcon := MenuBars;
      overlayHidden := true;
      searchPosts := [];
      results := [];
      emptyShown := false;
      this.accordions := accordions;
    }

    method LockScroll()
      modifies this
      ensures View() == Lock(old(View()))
    {
      scrollLockCount := scrollLockCount + 1;
      noScroll := true;
    }

    method UnlockScroll()
      modifies this
      ensures View() == Unlock(old(View()))
    {
      scrollLockCount := if scrollLockCount - 1 < 0 then 0 else scrollLockCount - 1;
      if scrollLockCount == 0 {
        noScroll := false;
      }
    }

    method SetMenuState(isOpen: bool)
      modifies this
      ensures View() == MenuState(elements, old(View()), isOpen)
    {
      if !elements.menu {
        return;
      }
      menuExpanded := isOpen;
      if isOpen {
        menuHidden := false;
        menuIcon := CloseCross;
        LockScroll();
      } else {
        menuHidden := true;
        menuIcon := MenuBars;
        UnlockScroll();
      }
    }

    method ToggleMenu()
      modifies this
      ensures View() == MenuState(elements, old(View()), !old(menuExpanded))
    {
      var isOpen := menuExpanded;
      SetMenuState(!isOpen);
    }

    method RenderSearchResultsOf(items: seq<SearchPost>)
      modifies this
      ensures View() == Render(elements, old(View()), items)
    {
      if !elements.results || !elements.emptyMessage {
        return;
      }
      if |items| == 0 {
        results := [];
        emptyShown := true;
        return;
      }
      emptyShown := false;
      results := EntriesFor(Take(items, ResultLimit));
    }

    method FilterPostsBy(query: JsString)
      modifies this
      ensures View() == Filtered(elements, old(View()), query)
    {
      if query == [] {
        RenderSearchResultsOf(Take(searchPosts, DefaultCount));
        return;
      }
      var normalized := Lower(query);
      RenderSearchResultsOf(Matching(searchPosts, normalized));
    }

    method OpenSearch()
      modifies this
      ensures View() == Opened(elements, old(View()))
    {
      if !elements.overlay {
        return;
      }
      overlayHidden := false;
      LockScroll();
      FilterPostsBy("");
    }

    method CloseSearch()
      modifies this
      ensures View() == Closed(elements, old(View()))
    {
      if !elements.overlay {
        return;
      }
      overlayHidden := true;
      if elements.emptyMessage {
        emptyShown := false;
      }
      UnlockScroll();
    }

    method ToggleSearch()
      modifies this
      ensures View() == ToggledSearch(elements, old(View()))
    {
      if !elements.overlay {
        return;
      }
      if overlayHidden {
        OpenSearch();
      } else {
        CloseSearch();
      }
    }

    method OnEscape()
      modifies this
      ensures View() == EscapePressed(elements, old(View()))
    {
      if elements.overlay && !overlayHidden {
        CloseSearch();
        return;
      }
      SetMenuState(false);
    }

    method LoadSearchData(data: SearchData)
      modifies this
      ensures View() == Loaded(old(View()), data)
    {
      match data
      case NoScript =>
      case EmptyText => searchPosts := [];
      case Malformed => searchPosts := [];
      case Parsed(posts) => searchPosts := posts;
    }

    method ToggleAccordion(i: nat)
      requires i < |accordions|
      modifies this
      ensures View() == AccordionToggled(old(View()), i)
    {
      var a := accordions[i];
      if !a.hasSubnav {
        return;
      }
      if a.expanded {
        accordions := accordions[i := Accordion(true, false)];
      } else {
        accordions := accordions[i := Accordion(true, true)];
      }
    }

    /** Delivers one event to its handler; the lock stays balanced. */
    method Handle(e: Event)
      requires Valid() && Enabled(elements, View(), e)
      modifies this
      ensures Valid()
      ensures View() == Step(elements, old(View()), e)
    {
      StepKeepsBalance(elements, View(), e);
      match e
      case MenuButton => ToggleMenu();
      case MenuLink => SetMenuState(false);
      case EscapeKey => OnEscape();
      case SearchButton => ToggleSearch();
      case SearchClose => CloseSearch();
      case SearchInput(q) =>
        if elements.overlay {
          FilterPostsBy(q);
        }
      case AccordionButton(i) => ToggleAccordion(i);
    }
  }
}
