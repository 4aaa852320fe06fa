/** The page shell: the theme toggle handed to the header, the scroll-to-top
    button's visibility, and the page-wide scroll event that both the page's
    and the header's listeners receive. */
module Page {
  import Reveal
  import Header

  const Dark := "dark"
  const Light := "light"

  /** `setTheme(theme === "dark" ? "light" : "dark")`: always one of the two
      themes, and dark exactly when the current theme is not. */
  function ToggleTheme(theme: string): (next: string)
    ensures next == Dark || next == Light
    ensures next == Dark <==> theme != Dark
  {
    if theme == Dark then Light else Dark
  }

  /** Between the two themes, toggling twice restores the theme. */
  lemma ToggleThemeTwiceRestores(theme: string)
    requires theme == Dark || theme == Light
    ensures ToggleTheme(ToggleTheme(theme)) == theme
  {
  }

  /** Any other theme value (the provider may hold one) toggles to dark and
      never comes back. */
  lemma ToggleFromOtherTheme(theme: string)
    requires theme != Dark && theme != Light
    ensures ToggleTheme(theme) == Dark
    ensures ToggleTheme(ToggleTheme(theme)) == Light != theme
  {
  }

  /** Whatever the theme, a toggle switches the header's icon. */
  lemma ToggleSwitchesIcon(theme: string)
    ensures Header.ThemeIcon(ToggleTheme(theme)) != Header.ThemeIcon(theme)
  {
  }

  /** `window.scrollY > 500` shows the scroll-to-top button. */
  const ShowAbove: real := 500.0

  datatype PageState = PageState(theme: string, showScrollToTop: bool, header: Header.HeaderState)

  function InitialPage(theme: string): PageState {
    PageState(theme, false, Header.InitialHeader)
  }

  datatype PageEvent =
    | Scrolled(y: real)          // one window scroll event, seen by both listeners
    | ThemeButton                // the header's theme button
    | MenuButton
    | NavLinkClicked(item: nat)
    | HireMeClicked

  function Step(s: PageState, e: PageEvent): (t: PageState)
    ensures e.Scrolled? ==> (t.showScrollToTop <==> e.y > ShowAbove)
                            && (t.header.scrolled <==> e.y > Header.ScrolledAbove)
                            && t.theme == s.theme && t.header.menuOpen == s.header.menuOpen
    ensures e.ThemeButton? ==> t == s.(theme := ToggleTheme(s.theme))
    ensures !e.Scrolled? ==> t.showScrollToTop == s.showScrollToTop && t.header.scrolled == s.header.scrolled
  {
    match e
    case Scrolled(y) =>
      PageState(s.theme, y > ShowAbove, Header.Step(s.header, Header.Scroll(y)))
    case ThemeButton => s.(theme := ToggleTheme(s.theme))
    case MenuButton => s.(header := Header.Step(s.header, Header.MenuButton))
    case NavLinkClicked(item) => s.(header := Header.Step(s.header, Header.NavLinkClicked(item)))
    case HireMeClicked => s.(header := Header.Step(s.header, Header.HireMeClicked))
  }

  function Run(s: PageState, events: seq<PageEvent>): PageState
    decreases |events|
  {
    if |events| == 0 then s else Run(Step(s, events[0]), events[1..])
  }

  /** The button is never shown over an unscrolled header: 500 is above 50. */
  predicate Invariant(s: PageState) {
    s.showScrollToTop ==> s.header.scrolled
  }

  lemma StepPreservesInvariant(s: PageState, e: PageEvent)
    requires Invariant(s)
    ensures Invariant(Step(s, e))
  {
  }

  lemma {:induction false} RunPreservesInvariant(s: PageState, events: seq<PageEvent>)
    requires Invariant(s)
    ensures Invariant(Run(s, events))
    decreases |events|
  {
    if |events| > 0 {
      StepPreservesInvariant(s, events[0]);
      RunPreservesInvariant(Step(s, events[0]), events[1..]);
    }
  }

  /** Whenever the scroll-to-top button is clickable, the header is in its
      scrolled state. */
  lemma ClickableButtonMeansScrolledHeader(theme: string, events: seq<PageEvent>)
    ensures var s := Run(InitialPage(theme), events);
            ScrollButtonClickable(s.showScrollToTop) ==> s.header.scrolled
  {
    RunPreservesInvariant(InitialPage(theme), events);
  }

  const NoPointer := "pointer-events-none"

  /** The scroll-to-top button's classes: shown, it carries the revealed
      tokens; hidden, the hidden ones and `pointer-events-none`. */
  function ScrollButtonClasses(show: bool): (classes: set<string>)
    ensures NoPointer in classes <==> !show
    ensures Reveal.IsRevealed(classes) <==> show
  {
    var base := {"fixed", "bottom-6", "right-6", "z-40", "rounded-full"};
    if show then base + Reveal.ShownTokens
    else base + Reveal.HiddenTokens + {NoPointer}
  }

  /** Pointer events reach the button unless it carries `pointer-events-none`. */
  predicate ScrollButtonClickable(show: bool) {
    NoPointer !in ScrollButtonClasses(show)
  }

  // ---------------------------------------------------------------------
  // Section anchors

  /** The sections' `id`s in page order: hero, about, skills, portfolio,
      blog, contact. */
  const SectionIds: seq<string> := ["home", "about", "skills", "portfolio", "blog", "contact"]

  /** Each navigation item links to the section at the same position, so the
      menu lists every section, in page order. */
  lemma NavItemsTargetSections()
    ensures |Header.NavItems| == |SectionIds|
    ensures forall k :: 0 <= k < |SectionIds| ==> Header.NavItems[k].href == "#" + SectionIds[k]
  {
  }
}
