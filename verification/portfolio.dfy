/** The portfolio gallery: the category list, the filtered project list, the
    filter/selection state with its modal, the technology-chip preview, the
    card delay schedule and the card ref-slot layout. */
module Portfolio {
  import opened Collections
  import Reveal

  datatype Project = Project(id: nat, title: string, category: string, technologies: seq<string>)

  const AllFilter := "All"

  /** The site's projects: identity, category and technologies (images,
      descriptions and links are presentation only). */
  const Projects: seq<Project> := [
    Project(1, "E-Commerce Platform", "Web Development",
            ["React", "Node.js", "MongoDB", "Stripe", "Redux"]),
    Project(2, "Financial Analytics Dashboard", "Software Development",
            ["React", "D3.js", "Node.js", "PostgreSQL", "WebSockets"]),
    Project(3, "Smart Home Network System", "Network Engineering",
            ["IoT", "MQTT", "Network Security", "Raspberry Pi", "Python"]),
    Project(4, "AI Content Generator", "Software Development",
            ["Python", "TensorFlow", "NLP", "Flask", "React"]),
    Project(5, "Virtual Reality Tour Platform", "Web Development",
            ["Three.js", "WebVR", "React", "WebGL", "Node.js"]),
    Project(6, "Secure Messaging App", "Network Engineering",
            ["React Native", "Cryptography", "Firebase", "WebRTC", "Redux"])
  ]

  function ProjectCategories(ps: seq<Project>): (cs: seq<string>)
    ensures |cs| == |ps| && forall k :: 0 <= k < |ps| ==> cs[k] == ps[k].category
  {
    seq(|ps|, k requires 0 <= k < |ps| => ps[k].category)
  }

  /** `["All", ...new Set(projects.map(p => p.category))]`: "All" first, then
      each category of the projects exactly once, in order of first
      occurrence. */
  function Categories(ps: seq<Project>): (cats: seq<string>)
    ensures |cats| >= 1 && cats[0] == AllFilter
    ensures NoDuplicates(cats[1..])
    ensures forall c :: c in cats[1..] <==> exists p :: p in ps && p.category == c
    ensures InFirstOccurrenceOrder(cats[1..], ProjectCategories(ps))
  {
    var cs := ProjectCategories(ps);
    var d := Distinct(cs);
    forall c ensures c in cs <==> exists p :: p in ps && p.category == c {
      if c in cs {
        var k :| 0 <= k < |cs| && cs[k] == c;
        assert ps[k] in ps;
      }
    }
    DistinctInFirstOccurrenceOrder(cs);
    assert ([AllFilter] + d)[1..] == d;
    [AllFilter] + d
  }

  /** `filteredProjects`: the whole list for "All", otherwise the projects of
      the chosen category in their original order and multiplicity. */
  function FilteredProjects(ps: seq<Project>, filter: string): (r: seq<Project>)
    ensures filter == AllFilter ==> r == ps
    ensures filter != AllFilter ==> IsSubsequence(r, ps)
    ensures filter != AllFilter ==>
              forall p :: multiset(r)[p] == if p.category == filter then multiset(ps)[p] else 0
    ensures filter != AllFilter ==> forall p :: p in r <==> p in ps && p.category == filter
  {
    if filter == AllFilter then ps
    else Filter(ps, (p: Project) => p.category == filter)
  }

  /** When no project is itself categorised "All", each project appears in the
      view of its own category button and in no other category button's
      view. */
  lemma EachProjectInExactlyOneView(ps: seq<Project>, p: Project)
    requires p in ps
    requires forall q :: q in ps ==> q.category != AllFilter
    ensures p.category in Categories(ps)[1..]
    ensures forall k :: 1 <= k < |Categories(ps)| ==>
              (p in FilteredProjects(ps, Categories(ps)[k]) <==> Categories(ps)[k] == p.category)
    ensures forall k, k' :: 1 <= k < |Categories(ps)| && 1 <= k' < |Categories(ps)|
              && p in FilteredProjects(ps, Categories(ps)[k]) && p in FilteredProjects(ps, Categories(ps)[k'])
              ==> k == k'
  {
    var cats := Categories(ps);
    var buttons := cats[1..];
    assert p.category in buttons;
    forall k | 1 <= k < |cats|
      ensures p in FilteredProjects(ps, cats[k]) <==> cats[k] == p.category
    {
      assert cats[k] == buttons[k - 1];
      assert buttons[k - 1] in buttons;
      var q :| q in ps && q.category == cats[k];
      assert cats[k] != AllFilter;
    }
    forall k, k' | 1 <= k < |cats| && 1 <= k' < |cats| && cats[k] == p.category && cats[k'] == p.category
      ensures k == k'
    {
      assert buttons[k - 1] == buttons[k' - 1];
    }
  }

  /** The site's category buttons. */
  lemma SiteCategories()
    ensures Categories(Projects) == [AllFilter, "Web Development", "Software Development", "Network Engineering"]
  {
    var w, s, n := "Web Development", "Software Development", "Network Engineering";
    assert ProjectCategories(Projects) == [w, s, n, s, w, n];
    FirstSeenOrder(w, s, n);
  }

  /** The site's category sequence de-duplicates to its first three entries;
      the steps below add one element each. */
  lemma FirstSeenOrder<T(!new)>(w: T, s: T, n: T)
    requires w != s && s != n && w != n
    ensures Distinct([w, s, n, s, w, n]) == [w, s, n]
  {
    FirstSeenOrderPrefix5(w, s, n);
    DistinctRepeat([w, s, n, s, w], n, [w, s, n]);
    assert [w, s, n, s, w] + [n] == [w, s, n, s, w, n];
  }

  lemma FirstSeenOrderPrefix5<T(!new)>(w: T, s: T, n: T)
    requires w != s && s != n && w != n
    ensures Distinct([w, s, n, s, w]) == [w, s, n]
  {
    FirstSeenOrderPrefix4(w, s, n);
    DistinctRepeat([w, s, n, s], w, [w, s, n]);
    assert [w, s, n, s] + [w] == [w, s, n, s, w];
  }

  lemma FirstSeenOrderPrefix4<T(!new)>(w: T, s: T, n: T)
    requires w != s && s != n && w != n
    ensures Distinct([w, s, n, s]) == [w, s, n]
  {
    FirstSeenOrderPrefix3(w, s, n);
    DistinctRepeat([w, s, n], s, [w, s, n]);
    assert [w, s, n] + [s] == [w, s, n, s];
  }

  lemma FirstSeenOrderPrefix3<T(!new)>(w: T, s: T, n: T)
    requires w != s && s != n && w != n
    ensures Distinct([w, s, n]) == [w, s, n]
  {
    FirstSeenOrderPrefix2(w, s);
    DistinctSnoc([w, s], n);
    assert [w, s] + [n] == [w, s, n];
  }

  lemma FirstSeenOrderPrefix2<T(!new)>(w: T, s: T)
    requires w != s
    ensures Distinct([w, s]) == [w, s]
  {
    DistinctSnoc([], w);
    assert [] + [w] == [w];
    DistinctSnoc([w], s);
    assert [w] + [s] == [w, s];
  }

  // ---------------------------------------------------------------------
  // Filter and selection state

  datatype PortfolioState = PortfolioState(filter: string, selected: Option<Project>)

  const InitialPortfolio := PortfolioState(AllFilter, None)

  datatype PortfolioEvent =
    | CategoryClicked(button: nat)     // `onClick={() => setFilter(category)}` of button `button`
    | CardClicked(card: nat)           // `onClick={() => setSelectedProject(project)}` of card `card`
    | DialogOpenChange(open: bool)     // the dialog's `onOpenChange`
    | CloseClicked                     // the X button

  /** The dialog's `open={!!selectedProject}`. */
  predicate ModalOpen(s: PortfolioState) {
    s.selected.Some?
  }

  /** A filter button has the active style when its category is the filter. */
  predicate ButtonActive(s: PortfolioState, category: string) {
    s.filter == category
  }

  /** One event. Only rendered buttons and cards can be clicked, so an index
      outside the rendered list is no event at all; and while the modal
      dialog is open the page behind it takes no clicks. */
  function Step(ps: seq<Project>, s: PortfolioState, e: PortfolioEvent): (t: PortfolioState)
    ensures (e.CategoryClicked? || e.CardClicked?) && ModalOpen(s) ==> t == s
    ensures e.CategoryClicked? && !ModalOpen(s) && e.button < |Categories(ps)| ==>
              t.filter == Categories(ps)[e.button] && t.selected == s.selected
    ensures e.CardClicked? && !ModalOpen(s) && e.card < |FilteredProjects(ps, s.filter)| ==>
              ModalOpen(t) && t.selected.value == FilteredProjects(ps, s.filter)[e.card] && t.filter == s.filter
    ensures (e.CloseClicked? || e == DialogOpenChange(false)) ==> !ModalOpen(t) && t.filter == s.filter
    ensures e == DialogOpenChange(true) ==> t == s
  {
    match e
    case CategoryClicked(k) =>
      var cats := Categories(ps);
      if !ModalOpen(s) && k < |cats| then s.(filter := cats[k]) else s
    case CardClicked(k) =>
      var view := FilteredProjects(ps, s.filter);
      if !ModalOpen(s) && k < |view| then s.(selected := Some(view[k])) else s
    case DialogOpenChange(open) =>
      if !open then s.(selected := None) else s
    case CloseClicked =>
      s.(selected := None)
  }

  function Run(ps: seq<Project>, s: PortfolioState, events: seq<PortfolioEvent>): PortfolioState
    decreases |events|
  {
    if |events| == 0 then s else Run(ps, Step(ps, s, events[0]), events[1..])
  }

  /** The filter is always one of the category buttons, and an open modal
      always shows one of the projects. */
  ghost predicate Invariant(ps: seq<Project>, s: PortfolioState) {
    s.filter in Categories(ps)
    && (s.selected.Some? ==> s.selected.value in ps)
  }

  lemma StepPreservesInvariant(ps: seq<Project>, s: PortfolioState, e: PortfolioEvent)
    requires Invariant(ps, s)
    ensures Invariant(ps, Step(ps, s, e))
  {
    if e.CardClicked? {
      var view := FilteredProjects(ps, s.filter);
      if !ModalOpen(s) && e.card < |view| {
        assert view[e.card] in view;
      }
    }
  }

  lemma {:induction false} RunPreservesInvariant(ps: seq<Project>, s: PortfolioState, events: seq<PortfolioEvent>)
    requires Invariant(ps, s)
    ensures Invariant(ps, Run(ps, s, events))
    decreases |events|
  {
    if |events| > 0 {
      StepPreservesInvariant(ps, s, events[0]);
      RunPreservesInvariant(ps, Step(ps, s, events[0]), events[1..]);
    }
  }

  /** From the initial state ("All", no project selected), the filter is
      always a member of the category list. */
  lemma FilterAlwaysACategory(ps: seq<Project>, events: seq<PortfolioEvent>)
    ensures Run(ps, InitialPortfolio, events).filter in Categories(ps)
  {
    assert Categories(ps)[0] == AllFilter;
    RunPreservesInvariant(ps, InitialPortfolio, events);
  }

  // ---------------------------------------------------------------------
  // Card contents and layout

  /** The chips on a card: `technologies.slice(0, 3)`, and `+(n - 3)` when
      there are more than three. */
  datatype TechPreview = TechPreview(chips: seq<string>, overflow: Option<nat>)

  function OverflowCount(p: TechPreview): nat {
    match p.overflow
    case Some(n) => n
    case None => 0
  }

  function Preview(technologies: seq<string>): (p: TechPreview)
    ensures |p.chips| == Min(3, |technologies|)
    ensures p.chips == technologies[..|p.chips|]
    ensures p.overflow.Some? <==> |technologies| > 3
    ensures |p.chips| + OverflowCount(p) == |technologies|
  {
    var shown := technologies[..Min(3, |technologies|)];
    if |technologies| > 3 then TechPreview(shown, Some(|technologies| - 3))
    else TechPreview(shown, None)
  }

  /** Every project on the site has five technologies: three chips and "+2". */
  lemma SitePreviews()
    ensures forall k :: 0 <= k < |Projects| ==> Preview(Projects[k].technologies).overflow == Some(2)
  {
    forall k | 0 <= k < |Projects|
      ensures |Projects[k].technologies| == 5
    {
    }
  }

  /** `transitionDelay: 300 + index * 100` ms for card `index`. */
  function CardDelay(index: nat): nat {
    Reveal.Stagger(300, 100, index)
  }

  lemma CardDelaysIncrease(i: nat, j: nat)
    requires i < j
    ensures CardDelay(i) < CardDelay(j)
    ensures CardDelay(j) - CardDelay(i) == 100 * (j - i)
  {
    Reveal.StaggerIncreasing(300, 100, i, j);
  }

  // ---------------------------------------------------------------------
  // Ref slots: the filter bar at 0, card `i` at `i + 1`, then the "view
  // more" wrapper at `projectRefs.current.length - 1`.

  datatype PortfolioElement = FilterBar | Card(index: nat) | ViewMore

  function Cards(n: nat): (cs: seq<PortfolioElement>)
    ensures |cs| == n && forall k :: 0 <= k < n ==> cs[k] == Card(k)
  {
    seq(n, (k: int) requires 0 <= k => Card(k))
  }

  /** The slots after the filter bar's and the `n` cards' callbacks ran. */
  function SlotsBeforeViewMore(n: nat): seq<Option<PortfolioElement>> {
    Reveal.WriteRun(Reveal.WriteSlot([], 0, Some(FilterBar)), 1, Cards(n))
  }

  lemma SlotsBeforeViewMoreLayout(n: nat)
    ensures |SlotsBeforeViewMore(n)| == n + 1
    ensures SlotsBeforeViewMore(n)[0] == Some(FilterBar)
    ensures forall k :: 0 <= k < n ==> SlotsBeforeViewMore(n)[k + 1] == Some(Card(k))
  {
    var first := Reveal.WriteSlot([], 0, Some(FilterBar));
    assert first == [Some(FilterBar)];
    Reveal.WriteRunAppends(first, Cards(n));
  }

  /** As written, the wrapper's write lands on the last card's slot: with at
      least one card, card `n - 1` is no longer held and so never observed;
      with none, the wrapper displaces the filter bar. */
  lemma ViewMoreDisplacesLastCard(n: nat)
    ensures var slots := Reveal.WriteLast(SlotsBeforeViewMore(n), ViewMore);
            |slots| == n + 1 && slots[n] == Some(ViewMore)
            && (n > 0 ==> Card(n - 1) !in Reveal.Present(slots))
            && (n == 0 ==> FilterBar !in Reveal.Present(slots))
  {
    SlotsBeforeViewMoreLayout(n);
    var before := SlotsBeforeViewMore(n);
    var slots := Reveal.WriteLast(before, ViewMore);
    forall k | 0 <= k < |slots|
      ensures n > 0 ==> slots[k] != Some(Card(n - 1))
      ensures n == 0 ==> slots[k] != Some(FilterBar)
    {
      if k < n {
        assert slots[k] == before[..n][k] == before[k];
        if k > 0 {
          assert before[(k - 1) + 1] == Some(Card(k - 1));
        }
      }
    }
  }

  /** Appending the wrapper instead keeps every card and the filter bar. */
  lemma ViewMoreAppendedKeepsAllCards(n: nat)
    ensures var slots := Reveal.WriteNext(SlotsBeforeViewMore(n), ViewMore);
            |slots| == n + 2
            && Reveal.Present(slots) == {FilterBar, ViewMore} + (set k | 0 <= k < n :: Card(k))
  {
    SlotsBeforeViewMoreLayout(n);
    var before := SlotsBeforeViewMore(n);
    var slots := Reveal.WriteNext(before, ViewMore);
    var expected := {FilterBar, ViewMore} + (set k | 0 <= k < n :: Card(k));
    forall e ensures e in Reveal.Present(slots) <==> e in expected {
      if e in expected {
        match e
        case FilterBar => assert slots[0] == Some(FilterBar);
        case ViewMore => assert slots[n + 1] == Some(ViewMore);
        case Card(k) => assert slots[k + 1] == Some(Card(k));
      }
      if e in Reveal.Present(slots) {
        var k :| 0 <= k < |slots| && slots[k] == Some(e);
        if 0 < k <= n {
          assert before[(k - 1) + 1] == Some(Card(k - 1));
        }
      }
    }
  }

  /** The effect as written observes the element `sectionRef` holds and the
      slots' elements: the wrapper, the filter bar when there is a card, and
      every card but the last. Its cleanup, reading the same refs,
      unobserves them all. */
  lemma EffectCleanupUndoesSetup(headerBlockWritesLast: bool, n: nat)
    ensures var holder := Reveal.SectionRefHolder<PortfolioElement>(headerBlockWritesLast);
            var slots := Reveal.WriteLast(SlotsBeforeViewMore(n), ViewMore);
            var watching := Reveal.Setup(Some(holder), Reveal.Lift(slots));
            (forall t :: t in watching <==>
               t == holder
               || (t.Slotted? && (t.el == ViewMore || (n > 0 && t.el == FilterBar) || (t.el.Card? && t.el.index + 1 < n))))
            && (Reveal.HeaderBlock in watching <==> headerBlockWritesLast)
            && Reveal.Cleanup(watching, Some(holder), Reveal.Lift(slots)) == {}
  {
    var slots := Reveal.WriteLast(SlotsBeforeViewMore(n), ViewMore);
    AsWrittenSlotsHold(n);
    Reveal.EffectWatches(Reveal.SectionRefHolder<PortfolioElement>(headerBlockWritesLast), slots);
  }

  /** The elements the slots hold once the wrapper has written at
      `length - 1`. */
  lemma AsWrittenSlotsHold(n: nat)
    ensures forall e :: e in Reveal.Present(Reveal.WriteLast(SlotsBeforeViewMore(n), ViewMore)) <==>
              e == ViewMore || (n > 0 && e == FilterBar) || (e.Card? && e.index + 1 < n)
  {
    SlotsBeforeViewMoreLayout(n);
    ViewMoreDisplacesLastCard(n);
    var before := SlotsBeforeViewMore(n);
    var slots := Reveal.WriteLast(before, ViewMore);
    assert |before| == n + 1;
    assert slots == before[..n] + [Some(ViewMore)];
    forall k | 0 <= k < n
      ensures slots[k] == before[k]
    {
      assert slots[k] == before[..n][k];
    }
    forall e | e in Reveal.Present(slots)
      ensures e == ViewMore || (n > 0 && e == FilterBar) || (e.Card? && e.index + 1 < n)
    {
      var k :| 0 <= k < |slots| && slots[k] == Some(e);
      if k < n {
        if k > 0 {
          assert before[(k - 1) + 1] == Some(Card(k - 1));
        }
      }
    }
    forall e | e == ViewMore || (n > 0 && e == FilterBar) || (e.Card? && e.index + 1 < n)
      ensures Some(e) in slots
    {
      if e == ViewMore {
        assert slots[n] == Some(e);
      } else if e == FilterBar {
        assert slots[0] == Some(e);
      } else {
        assert slots[e.index + 1] == Some(e);
      }
    }
  }
}
