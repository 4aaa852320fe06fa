/** The skills section: the category selector state, the displayed skill
    list, the row and progress-bar delay schedules, the bar widths, and the
    ref-slot layout of the section's revealed elements. */
module Skills {
  import opened Collections
  import Reveal

  datatype Skill = Skill(name: string, level: int)

  datatype SkillCategory = SkillCategory(name: string, skills: seq<Skill>)

  /** The site's categories and skills (descriptions are presentation only). */
  const SkillCategories: seq<SkillCategory> := [
    SkillCategory("Frontend", [
      Skill("React", 95), Skill("JavaScript", 90), Skill("CSS/SCSS", 85),
      Skill("Vue.js", 75), Skill("UI/UX", 80)]),
    SkillCategory("Backend", [
      Skill("Node.js", 90), Skill("Python", 85), Skill("Databases", 85),
      Skill("GraphQL", 70), Skill("Java", 75)]),
    SkillCategory("DevOps & Networking", [
      Skill("Docker", 85), Skill("AWS", 80), Skill("CI/CD", 75),
      Skill("Network Security", 80), Skill("Infrastructure", 85)])
  ]

  /** Every level on the site is a percentage, and every category lists
      exactly five skills. */
  lemma SiteSkillData()
    ensures forall i :: 0 <= i < |SkillCategories| ==> |SkillCategories[i].skills| == 5
    ensures forall i, j :: 0 <= i < |SkillCategories| && 0 <= j < |SkillCategories[i].skills| ==>
              0 <= SkillCategories[i].skills[j].level <= 100
  {
  }

  // ---------------------------------------------------------------------
  // Category selection

  datatype SkillsState = SkillsState(activeCategory: nat)

  /** `useState(0)`. */
  const InitialSkills := SkillsState(0)

  /** `onClick={() => setActiveCategory(index)}` of button `index`; there is
      one button per category, so an index past the list is no click at all. */
  function Select(cats: seq<SkillCategory>, s: SkillsState, button: nat): (t: SkillsState)
    ensures button < |cats| ==> t.activeCategory == button
    ensures button >= |cats| ==> t == s
  {
    if button < |cats| then SkillsState(button) else s
  }

  function Run(cats: seq<SkillCategory>, s: SkillsState, clicks: seq<nat>): SkillsState
    decreases |clicks|
  {
    if |clicks| == 0 then s else Run(cats, Select(cats, s, clicks[0]), clicks[1..])
  }

  predicate InRange(cats: seq<SkillCategory>, s: SkillsState) {
    s.activeCategory < |cats|
  }

  /** From any in-range state, the active category stays in range and is the
      last button clicked, or the starting one when no button was. */
  lemma {:induction false} RunStaysInRange(cats: seq<SkillCategory>, s: SkillsState, clicks: seq<nat>)
    requires InRange(cats, s)
    ensures InRange(cats, Run(cats, s, clicks))
    ensures Run(cats, s, clicks).activeCategory == LastValidClick(cats, s.activeCategory, clicks)
    decreases |clicks|
  {
    if |clicks| > 0 {
      var init := clicks[..|clicks| - 1];
      var last := clicks[|clicks| - 1];
      assert clicks == init + [last];
      RunSnoc(cats, s, init, last);
      RunStaysInRange(cats, s, init);
      assert init == clicks[..|clicks| - 1];
    }
  }

  /** Running one more click is one more selection. */
  lemma {:induction false} RunSnoc(cats: seq<SkillCategory>, s: SkillsState, clicks: seq<nat>, button: nat)
    ensures Run(cats, s, clicks + [button]) == Select(cats, Run(cats, s, clicks), button)
    decreases |clicks|
  {
    if |clicks| == 0 {
      assert [] + [button] == [button];
    } else {
      assert (clicks + [button])[1..] == clicks[1..] + [button];
      RunSnoc(cats, Select(cats, s, clicks[0]), clicks[1..], button);
    }
  }

  /** No click after position `k` names a rendered button. */
  predicate LaterClicksMiss(cats: seq<SkillCategory>, clicks: seq<nat>, k: nat) {
    forall j :: k < j < |clicks| ==> clicks[j] >= |cats|
  }

  /** The last click that names a rendered button, or `current` when none
      does: read from the end of the clicks. */
  function LastValidClick(cats: seq<SkillCategory>, current: nat, clicks: seq<nat>): (r: nat)
    ensures (forall k :: 0 <= k < |clicks| ==> clicks[k] >= |cats|) ==> r == current
    ensures forall k :: 0 <= k < |clicks| && clicks[k] < |cats| && LaterClicksMiss(cats, clicks, k) ==>
              r == clicks[k]
    decreases |clicks|
  {
    if |clicks| == 0 then current
    else if clicks[|clicks| - 1] < |cats| then clicks[|clicks| - 1]
    else
      var init := clicks[..|clicks| - 1];
      assert forall k :: 0 <= k < |init| ==> init[k] == clicks[k];
      LastValidClick(cats, current, init)
  }

  /** `skillCategories[activeCategory].skills`. */
  function DisplayedSkills(cats: seq<SkillCategory>, s: SkillsState): (shown: seq<Skill>)
    requires InRange(cats, s)
    ensures shown == cats[s.activeCategory].skills
  {
    cats[s.activeCategory].skills
  }

  /** After a click on button `i`, the list shows category `i`'s skills. */
  lemma ClickShowsCategory(cats: seq<SkillCategory>, s: SkillsState, button: nat)
    requires button < |cats|
    ensures InRange(cats, Select(cats, s, button))
    ensures DisplayedSkills(cats, Select(cats, s, button)) == cats[button].skills
  {
  }

  /** From the initial state, whatever the clicks, the displayed list is one
      of the categories' lists. */
  lemma DisplayedAlwaysACategory(cats: seq<SkillCategory>, clicks: seq<nat>)
    requires |cats| > 0
    ensures InRange(cats, Run(cats, InitialSkills, clicks))
    ensures DisplayedSkills(cats, Run(cats, InitialSkills, clicks)) in Categories(cats)
  {
    RunStaysInRange(cats, InitialSkills, clicks);
    var s := Run(cats, InitialSkills, clicks);
    assert Categories(cats)[s.activeCategory] == cats[s.activeCategory].skills;
  }

  function Categories(cats: seq<SkillCategory>): (lists: seq<seq<Skill>>)
    ensures |lists| == |cats| && forall k :: 0 <= k < |cats| ==> lists[k] == cats[k].skills
  {
    seq(|cats|, k requires 0 <= k < |cats| => cats[k].skills)
  }

  /** The button at `index` has the active style. */
  predicate ButtonActive(s: SkillsState, index: nat) {
    s.activeCategory == index
  }

  /** Exactly one button has the active style. */
  lemma ExactlyOneActiveButton(cats: seq<SkillCategory>, s: SkillsState)
    requires InRange(cats, s)
    ensures (set i | 0 <= i < |cats| && ButtonActive(s, i)) == {s.activeCategory}
  {
  }

  // ---------------------------------------------------------------------
  // Rows and progress bars

  /** Row `index`: `transitionDelay: 400 + index * 100` ms. */
  function RowDelay(index: nat): nat {
    Reveal.Stagger(400, 100, index)
  }

  /** Bar of row `index`: `transitionDelay: 600 + index * 100` ms. */
  function BarDelay(index: nat): nat {
    Reveal.Stagger(600, 100, index)
  }

  /** Every bar starts 200 ms after its own row, and rows (and bars) start
      100 ms apart. */
  lemma BarFollowsRow(i: nat, j: nat)
    ensures BarDelay(i) == RowDelay(i) + 200
    ensures i < j ==> RowDelay(i) < RowDelay(j) && BarDelay(j) - BarDelay(i) == 100 * (j - i)
  {
    if i < j {
      Reveal.StaggerIncreasing(600, 100, i, j);
      Reveal.StaggerIncreasing(400, 100, i, j);
    }
  }

  /** The bar's style: `width: level%` and its delay. */
  datatype BarStyle = BarStyle(widthPercent: int, delayMs: nat)

  function Bar(skill: Skill, index: nat): (b: BarStyle)
    ensures b.widthPercent == skill.level
    ensures b.delayMs == RowDelay(index) + 200
  {
    BarFollowsRow(index, index);
    BarStyle(skill.level, BarDelay(index))
  }

  /** On the site every displayed bar is between empty and full. */
  lemma SiteBarsWithinTrack(s: SkillsState, index: nat)
    requires InRange(SkillCategories, s) && index < |DisplayedSkills(SkillCategories, s)|
    ensures 0 <= Bar(DisplayedSkills(SkillCategories, s)[index], index).widthPercent <= 100
  {
    SiteSkillData();
  }

  // ---------------------------------------------------------------------
  // Ref slots: header 0, selector 1, list 2, row `i` at `i + 3`, and the
  // additional-expertise block at the fixed slot 8.

  datatype SkillsElement = Header | Selector | List | SkillRow(index: nat) | Additional

  function Slot(e: SkillsElement): nat {
    match e
    case Header => 0
    case Selector => 1
    case List => 2
    case SkillRow(i) => i + 3
    case Additional => 8
  }

  const SlotIndex: SkillsElement -> int := e => Slot(e)

  /** The elements rendered with `n` skill rows. */
  predicate IsRendered(n: nat, e: SkillsElement) {
    e.SkillRow? ==> e.index < n
  }

  /** The rendered elements have pairwise different slots exactly when there
      are at most five rows; a sixth row's slot is the additional block's. */
  lemma SlotsDistinctIffAtMostFiveRows(n: nat)
    ensures (forall a, b :: IsRendered(n, a) && IsRendered(n, b) && Slot(a) == Slot(b) ==> a == b) <==> n <= 5
  {
    if n > 5 {
      assert IsRendered(n, SkillRow(5)) && Slot(SkillRow(5)) == Slot(Additional);
    }
  }

  /** Whichever category is active, the site's rows fit below the additional
      block's slot. */
  lemma SiteSlotsDistinct(s: SkillsState)
    requires InRange(SkillCategories, s)
    ensures var n := |DisplayedSkills(SkillCategories, s)|;
            n == 5 && forall a, b :: IsRendered(n, a) && IsRendered(n, b) && Slot(a) == Slot(b) ==> a == b
  {
    SiteSkillData();
    SlotsDistinctIffAtMostFiveRows(5);
  }

  /** The elements in slot order with `n` rows. */
  function Layout(n: nat): (els: seq<SkillsElement>)
    ensures |els| == n + 4
    ensures forall k :: 0 <= k < n + 3 ==> Slot(els[k]) == k
    ensures els[n + 3] == Additional
    ensures forall e :: e in els <==> IsRendered(n, e)
  {
    var rows := seq(n, (i: int) requires 0 <= i => SkillRow(i));
    var els := [Header, Selector, List] + rows + [Additional];
    forall e: SkillsElement | IsRendered(n, e)
      ensures e in els
    {
      if e.SkillRow? {
        assert els[e.index + 3] == e;
      }
    }
    els
  }

  /** With five rows, the layout written in order leaves no hole and holds
      exactly the rendered elements. */
  lemma FiveRowSlots()
    ensures |Reveal.WriteEach([], Layout(5), SlotIndex)| == 9
    ensures forall e :: e in Reveal.Present(Reveal.WriteEach([], Layout(5), SlotIndex)) <==> IsRendered(5, e)
  {
    var empty: seq<Option<SkillsElement>> := [];
    var els := Layout(5);
    assert forall k :: 0 <= k < |els| ==> SlotIndex(els[k]) == |empty| + k;
    Reveal.WriteEachInOrder(empty, els, SlotIndex);
  }

  /** For every category on the site the slots hold all nine elements. Only
      the `<section>` writes `sectionRef` here, so the effect observes the
      section and each of the nine elements, and its cleanup unobserves each
      of them. */
  lemma SiteSlotsLayout()
    ensures var slots := Reveal.WriteEach([], Layout(5), SlotIndex);
            var watching := Reveal.Setup(Some(Reveal.SectionElement), Reveal.Lift(slots));
            (forall t :: t in watching <==> t == Reveal.SectionElement || (t.Slotted? && IsRendered(5, t.el)))
            && Reveal.Cleanup(watching, Some(Reveal.SectionElement), Reveal.Lift(slots)) == {}
  {
    FiveRowSlots();
    var slots := Reveal.WriteEach([], Layout(5), SlotIndex);
    Reveal.EffectWatches(Reveal.SectionElement, slots);
  }
}
