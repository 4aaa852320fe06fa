/** The fixed header: the `scrolled` flag driven by the window's scroll
    position, the mobile menu's open/closed state, the theme icon, and the
    navigation items. */
module Header {
  import opened Collections

  datatype HeaderState = HeaderState(scrolled: bool, menuOpen: bool)

  /** `useState(false)` for both flags. */
  const InitialHeader := HeaderState(false, false)

  /** `window.scrollY > 50` marks the header as scrolled. */
  const ScrolledAbove: real := 50.0

  datatype HeaderEvent =
    | Scroll(y: real)            // the window's scroll listener, with `window.scrollY`
    | MenuButton                 // the mobile menu button
    | NavLinkClicked(item: nat)  // mobile navigation link `item`
    | HireMeClicked              // the mobile "Hire Me" button

  /** The navigation items, in menu order. */
  datatype NavItem = NavItem(name: string, href: string)

  const NavItems: seq<NavItem> := [
    NavItem("Home", "#home"),
    NavItem("About", "#about"),
    NavItem("Skills", "#skills"),
    NavItem("Portfolio", "#portfolio"),
    NavItem("Blog", "#blog"),
    NavItem("Contact", "#contact")
  ]

  /** One event. A mobile link exists for each navigation item only, so an
      index past the list is no click at all. */
  function Step(s: HeaderState, e: HeaderEvent): (t: HeaderState)
    ensures e.Scroll? ==> (t.scrolled <==> e.y > ScrolledAbove) && t.menuOpen == s.menuOpen
    ensures e.MenuButton? ==> t.menuOpen != s.menuOpen && t.scrolled == s.scrolled
    ensures (e.HireMeClicked? || (e.NavLinkClicked? && e.item < |NavItems|)) ==>
              !t.menuOpen && t.scrolled == s.scrolled
    ensures e.NavLinkClicked? && e.item >= |NavItems| ==> t == s
  {
    match e
    case Scroll(y) => if y > ScrolledAbove then s.(scrolled := true) else s.(scrolled := false)
    case MenuButton => s.(menuOpen := !s.menuOpen)
    case NavLinkClicked(item) => if item < |NavItems| then s.(menuOpen := false) else s
    case HireMeClicked => s.(menuOpen := false)
  }

  function Run(s: HeaderState, events: seq<HeaderEvent>): HeaderState
    decreases |events|
  {
    if |events| == 0 then s else Run(Step(s, events[0]), events[1..])
  }

  /** The scroll position carried by the last scroll event, if any. */
  function LastScroll(events: seq<HeaderEvent>): (y: Option<real>)
    ensures y.None? <==> forall k :: 0 <= k < |events| ==> !events[k].Scroll?
    decreases |events|
  {
    if |events| == 0 then None
    else if events[|events| - 1].Scroll? then Some(events[|events| - 1].y)
    else
      var y := LastScroll(events[..|events| - 1]);
      assert forall k :: 0 <= k < |events| - 1 ==> events[..|events| - 1][k] == events[k];
      y
  }

  /** After any events, the header is scrolled exactly when the last scroll
      position seen was above the threshold; with no scroll event it keeps
      its starting flag. Clicks never change it. */
  lemma {:induction false} ScrolledFollowsLastScroll(s: HeaderState, events: seq<HeaderEvent>)
    ensures Run(s, events).scrolled == match LastScroll(events)
                                       case None => s.scrolled
                                       case Some(y) => y > ScrolledAbove
    decreases |events|
  {
    if |events| > 0 {
      var init := events[..|events| - 1];
      var last := events[|events| - 1];
      RunSnoc(s, init, last);
      assert events == init + [last];
      ScrolledFollowsLastScroll(s, init);
    }
  }

  /** Running one more event is one more step. */
  lemma {:induction false} RunSnoc(s: HeaderState, events: seq<HeaderEvent>, e: HeaderEvent)
    ensures Run(s, events + [e]) == Step(Run(s, events), e)
    decreases |events|
  {
    if |events| == 0 {
      assert [] + [e] == [e];
    } else {
      assert (events + [e])[1..] == events[1..] + [e];
      RunSnoc(Step(s, events[0]), events[1..], e);
    }
  }

  /** Exactly 50 is not scrolled; anything above is. */
  lemma ThresholdIsStrict(s: HeaderState)
    ensures !Step(s, Scroll(50.0)).scrolled
    ensures Step(s, Scroll(50.5)).scrolled
  {
  }

  /** Two presses of the menu button restore the state. */
  lemma MenuButtonTwiceRestores(s: HeaderState)
    ensures Step(Step(s, MenuButton), MenuButton) == s
  {
  }

  /** Navigating from the mobile menu closes it whatever its prior state, and
      otherwise leaves the header as it was. */
  lemma NavigationClosesMenu(s: HeaderState, item: nat)
    requires item < |NavItems|
    ensures Step(s, NavLinkClicked(item)) == s.(menuOpen := false)
    ensures Step(s, HireMeClicked) == s.(menuOpen := false)
    ensures Step(s.(menuOpen := true), NavLinkClicked(item)) == Step(s.(menuOpen := false), NavLinkClicked(item))
  {
  }

  const Expanded := "max-h-[500px]"
  const Collapsed := "max-h-0"

  /** The mobile panel's height class: expanded exactly when the menu is
      open, collapsed otherwise, never both. */
  function MenuPanelClasses(menuOpen: bool): (classes: set<string>)
    ensures Expanded in classes <==> menuOpen
    ensures Collapsed in classes <==> !menuOpen
  {
    var base := {"absolute", "top-full", "overflow-hidden", "md:hidden"};
    if menuOpen then base + {Expanded, "border-b", "border-border"} else base + {Collapsed}
  }

  datatype Icon = Sun | Moon

  /** The theme button shows the Sun in the dark theme and the Moon in any
      other. */
  function ThemeIcon(theme: string): (icon: Icon)
    ensures icon == Sun <==> theme == "dark"
  {
    if theme == "dark" then Sun else Moon
  }

  // ---------------------------------------------------------------------
  // Navigation items

  /** ASCII lower-casing, which is all the item names need. */
  function ToLower(s: string): (r: string)
    ensures |r| == |s|
    ensures forall k :: 0 <= k < |s| ==> r[k] == LowerChar(s[k])
  {
    seq(|s|, k requires 0 <= k < |s| => LowerChar(s[k]))
  }

  function LowerChar(c: char): (d: char)
    ensures 'A' <= c <= 'Z' ==> 'a' <= d <= 'z' && d as int - c as int == 32
    ensures !('A' <= c <= 'Z') ==> d == c
  {
    if 'A' <= c <= 'Z' then (c as int + 32) as char else c
  }

  /** Each item's link is `#` followed by its lower-cased name. */
  lemma NavHrefsAreLowerCasedNames()
    ensures forall k :: 0 <= k < |NavItems| ==> NavItems[k].href == "#" + ToLower(NavItems[k].name)
  {
    HrefFromName("Home", "#home");
    HrefFromName("About", "#about");
    HrefFromName("Skills", "#skills");
    HrefFromName("Portfolio", "#portfolio");
    HrefFromName("Blog", "#blog");
    HrefFromName("Contact", "#contact");
  }

  lemma HrefFromName(name: string, href: string)
    requires |href| == |name| + 1 && href[0] == '#'
    requires forall k :: 0 <= k < |name| ==> href[k + 1] == LowerChar(name[k])
    ensures href == "#" + ToLower(name)
  {
    var lower := ToLower(name);
    var r := "#" + lower;
    forall k | 0 <= k < |href|
      ensures r[k] == href[k]
    {
      if k > 0 {
        assert r[k] == lower[k - 1] == LowerChar(name[k - 1]);
      }
    }
    assert r == href;
  }
}
