/** The about section: the ref-slot layout of the profile, bio, journey
    heading and timeline items, the timeline delay schedule, the alternating
    timeline layout, and the observe/unobserve effect. */
module About {
  import opened Collections
  import Reveal

  /** The elements whose ref callbacks fill `timelineItems`. */
  datatype AboutElement = Profile | Bio | JourneyHeading | TimelineItem(index: nat)

  /** The milestones of the journey (years 2016, 2018, 2020, 2021, 2023). */
  const TimelineLength := 5

  /** The slot each ref callback writes: profile 0, bio 1, heading 2, and
      timeline item `i` at `i + 3`. */
  function Slot(e: AboutElement): (k: nat)
    ensures e.TimelineItem? <==> k >= 3
  {
    match e
    case Profile => 0
    case Bio => 1
    case JourneyHeading => 2
    case TimelineItem(i) => i + 3
  }

  /** Slot as the index expression a ref callback evaluates. */
  const SlotIndex: AboutElement -> int := e => Slot(e)

  /** The element a slot belongs to. */
  function ElementAt(k: nat): (e: AboutElement)
    ensures k < 3 <==> !e.TimelineItem?
  {
    if k == 0 then Profile
    else if k == 1 then Bio
    else if k == 2 then JourneyHeading
    else TimelineItem(k - 3)
  }

  /** Slot and ElementAt are inverse: no two elements share a slot and every
      slot belongs to exactly one element. */
  lemma SlotRoundTrip(e: AboutElement, k: nat)
    ensures ElementAt(Slot(e)) == e
    ensures Slot(ElementAt(k)) == k
  {
  }

  lemma SlotInjective(a: AboutElement, b: AboutElement)
    ensures Slot(a) == Slot(b) <==> a == b
  {
    SlotRoundTrip(a, 0);
    SlotRoundTrip(b, 0);
  }

  /** The rendered elements in render order, with `n` timeline items. */
  function Rendered(n: nat): (els: seq<AboutElement>)
    ensures |els| == n + 3
    ensures forall k :: 0 <= k < |els| ==> Slot(els[k]) == k
  {
    [Profile, Bio, JourneyHeading] + seq(n, (i: int) requires 0 <= i => TimelineItem(i))
  }

  /** The slots after every ref callback ran. */
  function RenderedSlots(n: nat): seq<Option<AboutElement>> {
    Reveal.WriteEach([], Rendered(n), SlotIndex)
  }

  /** The slots hold every rendered element, each at its own slot, with no
      holes. */
  lemma RenderedSlotsLayout(n: nat)
    ensures |RenderedSlots(n)| == n + 3
    ensures forall k :: 0 <= k < n + 3 ==> RenderedSlots(n)[k] == Some(ElementAt(k))
    ensures forall e :: e in Reveal.Present(RenderedSlots(n)) <==> (e.TimelineItem? ==> e.index < n)
  {
    var els := Rendered(n);
    var empty: seq<Option<AboutElement>> := [];
    Reveal.WriteEachInOrder(empty, els, SlotIndex);
    forall k | 0 <= k < n + 3
      ensures RenderedSlots(n)[k] == Some(ElementAt(k))
    {
      assert RenderedSlots(n)[0 + k] == Some(els[k]);
      SlotRoundTrip(els[k], k);
    }
    forall e: AboutElement | e.TimelineItem? ==> e.index < n
      ensures e in els
    {
      assert els[Slot(e)] == e by {
        SlotRoundTrip(e, 0);
        SlotRoundTrip(els[Slot(e)], 0);
      }
    }
  }

  /** On the site, with its five milestones, the slots are exactly the
      eight elements: profile, bio, heading and the five timeline items, the
      last milestone in slot 7. */
  lemma SiteTimelineSlots()
    ensures |RenderedSlots(TimelineLength)| == 8
    ensures RenderedSlots(TimelineLength)[7] == Some(TimelineItem(4))
    ensures forall e :: e in Reveal.Present(RenderedSlots(TimelineLength)) <==> (e.TimelineItem? ==> e.index < 5)
  {
    RenderedSlotsLayout(TimelineLength);
  }

  /** The effect observes the element `sectionRef` holds (the `<section>`,
      or the heading block when its callback wrote the ref last) and every
      filled slot; its cleanup, reading the same refs, unobserves them all.
      The heading block starts hidden and is observed, so revealed, only
      when it holds `sectionRef`. */
  lemma EffectCleanupUndoesSetup(headerBlockWritesLast: bool, n: nat)
    ensures var holder := Reveal.SectionRefHolder<AboutElement>(headerBlockWritesLast);
            var watching := Reveal.Setup(Some(holder), Reveal.Lift(RenderedSlots(n)));
            (forall t :: t in watching <==> t == holder || (t.Slotted? && (t.el.TimelineItem? ==> t.el.index < n)))
            && (Reveal.HeaderBlock in watching <==> headerBlockWritesLast)
            && (Reveal.SectionElement in watching <==> !headerBlockWritesLast)
            && Reveal.Cleanup(watching, Some(holder), Reveal.Lift(RenderedSlots(n))) == {}
  {
    RenderedSlotsLayout(n);
    Reveal.EffectWatches(Reveal.SectionRefHolder<AboutElement>(headerBlockWritesLast), RenderedSlots(n));
  }

  // ---------------------------------------------------------------------
  // Timeline items

  /** `transitionDelay: 500 + index * 200` ms. */
  function TimelineDelay(index: nat): (delayMs: nat)
    ensures delayMs >= 500
  {
    Reveal.Stagger(500, 200, index)
  }

  /** Each item starts 200 ms after the one above it, and its delay
      identifies it. */
  lemma TimelineDelaysIncrease(i: nat, j: nat)
    ensures i < j ==> TimelineDelay(j) - TimelineDelay(i) == 200 * (j - i)
    ensures TimelineDelay(i) == TimelineDelay(j) <==> i == j
  {
    if i < j {
      Reveal.StaggerIncreasing(500, 200, i, j);
    } else if j < i {
      Reveal.StaggerIncreasing(500, 200, j, i);
    }
  }

  lemma TimelineDelayIdentifiesItem(index: nat)
    ensures Reveal.StaggerIndex(500, 200, TimelineDelay(index)) == index
  {
    Reveal.StaggerIndexInverts(500, 200, index);
  }

  const RowReverse := "md:flex-row-reverse"
  const MarginRight := "md:mr-6"
  const MarginLeft := "md:ml-6"

  /** The parity-dependent classes of item `index`'s row: even rows are
      reversed. Every row starts hidden. */
  function RowClasses(index: nat): (classes: set<string>)
    ensures RowReverse in classes <==> index % 2 == 0
    ensures Reveal.HiddenTokens <= classes
  {
    var base := {"relative", "flex", "flex-col", "md:flex-row", Reveal.Opacity0, Reveal.TranslateY10};
    if index % 2 == 0 then base + {RowReverse} else base
  }

  /** The classes of item `index`'s content box: every item resets its
      medium-screen left margin with `md:ml-0`; even items add a right
      margin, odd items a left margin that overrides the reset. */
  function ContentClasses(index: nat): (classes: set<string>)
    ensures MarginRight in classes <==> index % 2 == 0
    ensures MarginLeft in classes <==> index % 2 == 1
  {
    var base := {"relative", "md:w-1/2", "glass-card", "ml-6", "md:ml-0"};
    if index % 2 == 0 then base + {MarginRight} else base + {MarginLeft}
  }

  datatype Side = Left | Right

  function Opposite(s: Side): Side {
    match s
    case Left => Right
    case Right => Left
  }

  /** On a medium screen the row holds a half-width spacer then the content;
      a reversed row puts the content in the left half. */
  function ContentSide(index: nat): Side {
    if RowReverse in RowClasses(index) then Left else Right
  }

  /** The side of the content box that carries the medium-screen margin. */
  function MarginSide(index: nat): Side {
    if MarginRight in ContentClasses(index) then Right else Left
  }

  /** The margin is always on the side facing the centre line, and
      consecutive items sit on opposite sides, starting on the left. */
  lemma MarginFacesCentreLine(index: nat)
    ensures MarginSide(index) == Opposite(ContentSide(index))
    ensures ContentSide(index) != ContentSide(index + 1)
    ensures ContentSide(index) == if index % 2 == 0 then Left else Right
  {
  }
}
