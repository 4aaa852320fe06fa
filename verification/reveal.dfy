/** The scroll-reveal pattern every section repeats: an intersection callback
    that rewrites an element's class list, an affine transition-delay
    schedule, the ref-slot arrays the sections fill from ref callbacks, and the
    observe/unobserve calls of the effect and its cleanup. */
module Reveal {
  import opened Collections

  const Opacity0 := "opacity-0"
  const Opacity100 := "opacity-100"
  const TranslateY10 := "translate-y-10"
  const TranslateY0 := "translate-y-0"

  /** Tokens added on reveal, and tokens removed. */
  const ShownTokens: set<string> := {Opacity100, TranslateY0}
  const HiddenTokens: set<string> := {Opacity0, TranslateY10}

  /** The element is in its final, visible presentation. */
  predicate IsRevealed(classes: set<string>) {
    ShownTokens <= classes && classes !! HiddenTokens
  }

  /** The observer callback applied to one entry: when the entry intersects,
      `classList.add("opacity-100", "translate-y-0")` then
      `classList.remove("opacity-0", "translate-y-10")`; otherwise nothing. */
  function RevealStep(classes: set<string>, isIntersecting: bool): (r: set<string>)
    ensures !isIntersecting ==> r == classes
    ensures isIntersecting ==> IsRevealed(r)
    ensures forall c :: c !in ShownTokens && c !in HiddenTokens ==> (c in r <==> c in classes)
  {
    if isIntersecting then (classes + ShownTokens) - HiddenTokens else classes
  }

  /** Two intersecting entries in a row leave the classes as one does. */
  lemma RevealIdempotent(classes: set<string>)
    ensures RevealStep(RevealStep(classes, true), true) == RevealStep(classes, true)
  {
  }

  /** No entry, intersecting or not, brings back a hidden token. */
  lemma RevealMonotone(classes: set<string>, isIntersecting: bool)
    requires IsRevealed(classes)
    ensures IsRevealed(RevealStep(classes, isIntersecting))
  {
  }

  /** The callback run over the entries the observer delivers for one element,
      in delivery order. */
  function RevealAll(classes: set<string>, entries: seq<bool>): set<string>
    decreases |entries|
  {
    if |entries| == 0 then classes else RevealAll(RevealStep(classes, entries[0]), entries[1..])
  }

  /** Over any entry history: the element ends revealed exactly when some entry
      intersected (for an element that starts hidden), nothing changes when
      none did, and tokens other than the four reveal tokens are never
      touched. */
  lemma {:induction false} RevealAllCharacterized(classes: set<string>, entries: seq<bool>)
    ensures true in entries ==> IsRevealed(RevealAll(classes, entries))
    ensures true !in entries ==> RevealAll(classes, entries) == classes
    ensures IsRevealed(classes) ==> IsRevealed(RevealAll(classes, entries))
    ensures forall c :: c !in ShownTokens && c !in HiddenTokens ==>
              (c in RevealAll(classes, entries) <==> c in classes)
    decreases |entries|
  {
    if |entries| > 0 {
      var next := RevealStep(classes, entries[0]);
      RevealAllCharacterized(next, entries[1..]);
      assert entries == [entries[0]] + entries[1..];
      if entries[0] {
        RevealMonotone(next, true);
      }
    }
  }

  /** A start-hidden element ends revealed iff at least one entry
      intersected: the reveal is one-way. */
  lemma RevealedIffSomeEntryIntersected(classes: set<string>, entries: seq<bool>)
    requires Opacity0 in classes
    ensures IsRevealed(RevealAll(classes, entries)) <==> true in entries
  {
    RevealAllCharacterized(classes, entries);
  }

  // ---------------------------------------------------------------------
  // Transition-delay schedules: `base + index * step` milliseconds.

  function Stagger(baseMs: nat, stepMs: nat, index: nat): (delayMs: nat)
    ensures delayMs >= baseMs
  {
    baseMs + index * stepMs
  }

  /** Later items start later, by exactly one step per position. */
  lemma {:induction false} StaggerIncreasing(baseMs: nat, stepMs: nat, i: nat, j: nat)
    requires stepMs > 0 && i < j
    ensures Stagger(baseMs, stepMs, i) < Stagger(baseMs, stepMs, j)
    ensures Stagger(baseMs, stepMs, j) - Stagger(baseMs, stepMs, i) == (j - i) * stepMs
    decreases j - i
  {
    assert j * stepMs == (j - 1) * stepMs + stepMs;
    if j - 1 > i {
      StaggerIncreasing(baseMs, stepMs, i, j - 1);
      assert (j - i) * stepMs == (j - 1 - i) * stepMs + stepMs;
    }
  }

  /** The item index recovered from a delay of the schedule. */
  function StaggerIndex(baseMs: nat, stepMs: nat, delayMs: nat): (index: nat)
    requires stepMs > 0 && delayMs >= baseMs
    ensures delayMs - baseMs < (index + 1) * stepMs
  {
    (delayMs - baseMs) / stepMs
  }

  lemma StaggerIndexInverts(baseMs: nat, stepMs: nat, index: nat)
    requires stepMs > 0
    ensures StaggerIndex(baseMs, stepMs, Stagger(baseMs, stepMs, index)) == index
  {
    var p := index * stepMs;
    var q := p / stepMs;
    var r := p % stepMs;
    assert p == q * stepMs + r && 0 <= r < stepMs;
    assert (index - q) * stepMs == r;
    ProductBounds(index - q, stepMs);
  }

  lemma ProductBounds(d: int, s: int)
    requires s > 0
    ensures d >= 1 ==> d * s >= s
    ensures d <= -1 ==> d * s <= -s
  {
  }

  // ---------------------------------------------------------------------
  // Ref slots: a JavaScript array of element handles filled by ref callbacks.
  // A hole and a `null` are both `None`: `forEach` skips holes and the
  // callbacks' `if (item)` skips nulls.

  /** `slots[index] = el`: a write at or past the end extends the array with
      holes; a negative index sets a non-element property, which neither the
      length nor `forEach` sees. */
  function WriteSlot<E>(slots: seq<Option<E>>, index: int, el: Option<E>): (r: seq<Option<E>>)
    ensures index < 0 ==> r == slots
    ensures 0 <= index ==> |r| == (if index < |slots| then |slots| else index + 1)
    ensures 0 <= index ==> r[index] == el
    ensures forall k :: 0 <= k < |slots| && k != index ==> r[k] == slots[k]
    ensures forall k :: |slots| <= k < |r| && k != index ==> r[k] == None
  {
    if index < 0 then slots
    else if index < |slots| then slots[index := el]
    else slots + seq(index - |slots|, _ => None) + [el]
  }

  /** Writing `els[k]` to slot `start + k` for each k, in order. */
  function WriteRun<E>(slots: seq<Option<E>>, start: nat, els: seq<E>): seq<Option<E>>
    decreases |els|
  {
    if |els| == 0 then slots else WriteRun(WriteSlot(slots, start, Some(els[0])), start + 1, els[1..])
  }

  /** A run of writes starting at the current length appends the elements. */
  lemma {:induction false} WriteRunAppends<E>(slots: seq<Option<E>>, els: seq<E>)
    ensures |WriteRun(slots, |slots|, els)| == |slots| + |els|
    ensures WriteRun(slots, |slots|, els)[..|slots|] == slots
    ensures forall k :: 0 <= k < |els| ==> WriteRun(slots, |slots|, els)[|slots| + k] == Some(els[k])
    decreases |els|
  {
    if |els| > 0 {
      var next := WriteSlot(slots, |slots|, Some(els[0]));
      assert next == slots + [Some(els[0])];
      WriteRunAppends(next, els[1..]);
      var r := WriteRun(slots, |slots|, els);
      assert r == WriteRun(next, |next|, els[1..]);
      forall k | 0 <= k < |els|
        ensures r[|slots| + k] == Some(els[k])
      {
        if k > 0 {
          assert r[|next| + (k - 1)] == Some(els[1..][k - 1]);
        }
      }
    }
  }

  /** Each element's ref callback, in render order, writing the element to
      the slot `slotOf` gives it. */
  function WriteEach<E>(slots: seq<Option<E>>, els: seq<E>, slotOf: E -> int): seq<Option<E>>
    decreases |els|
  {
    if |els| == 0 then slots else WriteEach(WriteSlot(slots, slotOf(els[0]), Some(els[0])), els[1..], slotOf)
  }

  /** When the k-th element's slot is the k-th free position, the writes
      append the elements in order, so the slots hold exactly them. */
  lemma {:induction false} WriteEachInOrder<E(!new)>(slots: seq<Option<E>>, els: seq<E>, slotOf: E -> int)
    requires forall k :: 0 <= k < |els| ==> slotOf(els[k]) == |slots| + k
    ensures |WriteEach(slots, els, slotOf)| == |slots| + |els|
    ensures WriteEach(slots, els, slotOf)[..|slots|] == slots
    ensures forall k :: 0 <= k < |els| ==> WriteEach(slots, els, slotOf)[|slots| + k] == Some(els[k])
    ensures forall e :: e in Present(WriteEach(slots, els, slotOf)) <==> e in Present(slots) || e in els
    decreases |els|
  {
    var r := WriteEach(slots, els, slotOf);
    if |els| > 0 {
      var next := WriteSlot(slots, slotOf(els[0]), Some(els[0]));
      assert next == slots + [Some(els[0])];
      forall k | 0 <= k < |els[1..]|
        ensures slotOf(els[1..][k]) == |next| + k
      {
        assert els[1..][k] == els[k + 1];
      }
      WriteEachInOrder(next, els[1..], slotOf);
      assert r == WriteEach(next, els[1..], slotOf);
      forall k | 0 <= k < |els|
        ensures r[|slots| + k] == Some(els[k])
      {
        if k > 0 {
          assert r[|next| + (k - 1)] == Some(els[1..][k - 1]);
        }
      }
      assert r[..|next|][..|slots|] == r[..|slots|];
      forall e
        ensures e in Present(r) <==> e in Present(slots) || e in els
      {
        assert e in Present(next) <==> e in Present(slots) || e == els[0];
        assert e in els <==> e == els[0] || e in els[1..];
      }
    }
  }

  /** `arr[arr.length - 1] = el`, the write the "view more" wrappers use. */
  function WriteLast<E>(slots: seq<Option<E>>, el: E): (r: seq<Option<E>>)
    ensures |slots| > 0 ==> |r| == |slots| && r == slots[..|slots| - 1] + [Some(el)]
    ensures |slots| == 0 ==> r == []
  {
    WriteSlot(slots, |slots| - 1, Some(el))
  }

  /** `arr[arr.length] = el`: appends, so every earlier slot keeps its
      element. */
  function WriteNext<E>(slots: seq<Option<E>>, el: E): (r: seq<Option<E>>)
    ensures r == slots + [Some(el)]
  {
    WriteSlot(slots, |slots|, Some(el))
  }

  /** The elements held in the slots. */
  function Present<E(!new)>(slots: seq<Option<E>>): (r: set<E>)
    ensures forall e :: e in r <==> Some(e) in slots
  {
    set k | 0 <= k < |slots| && slots[k].Some? :: slots[k].value
  }

  // ---------------------------------------------------------------------
  // Observation: the set of targets an IntersectionObserver watches.
  // Observing a watched target and unobserving an unwatched one change
  // nothing, which a set captures.

  function Observe<E>(watching: set<E>, target: Option<E>): set<E> {
    match target
    case Some(e) => watching + {e}
    case None => watching
  }

  function Unobserve<E>(watching: set<E>, target: Option<E>): set<E> {
    match target
    case Some(e) => watching - {e}
    case None => watching
  }

  /** `slots.forEach(item => { if (item) observer.observe(item) })`. */
  function ObserveEach<E(!new)>(watching: set<E>, slots: seq<Option<E>>): (r: set<E>)
    ensures r == watching + Present(slots)
    decreases |slots|
  {
    if |slots| == 0 then watching
    else
      assert slots == [slots[0]] + slots[1..];
      ObserveEach(Observe(watching, slots[0]), slots[1..])
  }

  /** `slots.forEach(item => { if (item) observer.unobserve(item) })`. */
  function UnobserveEach<E(!new)>(watching: set<E>, slots: seq<Option<E>>): (r: set<E>)
    ensures r == watching - Present(slots)
    decreases |slots|
  {
    if |slots| == 0 then watching
    else
      assert slots == [slots[0]] + slots[1..];
      UnobserveEach(Unobserve(watching, slots[0]), slots[1..])
  }

  /** The effect body: observe the section ref, then every filled slot, on a
      fresh observer. */
  function Setup<E(!new)>(section: Option<E>, slots: seq<Option<E>>): set<E> {
    ObserveEach(Observe({}, section), slots)
  }

  /** The effect cleanup: unobserve the section ref, then every filled slot. */
  function Cleanup<E(!new)>(watching: set<E>, section: Option<E>, slots: seq<Option<E>>): set<E> {
    UnobserveEach(Unobserve(watching, section), slots)
  }

  /** Setup watches exactly the non-null refs, and cleanup over the same refs
      leaves the observer watching nothing. */
  lemma CleanupUndoesSetup<E(!new)>(section: Option<E>, slots: seq<Option<E>>)
    ensures Setup(section, slots) == Present([section] + slots)
    ensures Cleanup(Setup(section, slots), section, slots) == {}
  {
    assert Present([section] + slots) == Present([section]) + Present(slots) by {
      forall e
        ensures e in Present([section] + slots) <==> e in Present([section]) + Present(slots)
      {
        assert Some(e) in [section] + slots <==> Some(e) == section || Some(e) in slots;
      }
    }
  }

  // ---------------------------------------------------------------------
  // Observer targets of a section: the element `sectionRef.current` holds
  // and the elements of its slot array, as values of one type.

  /** The `<section>` element (which carries `ref={sectionRef}`), the
      heading block (whose callback ref also writes `sectionRef.current` in
      the about, portfolio, blog and contact sections), and a slot element. */
  datatype Target<E> = SectionElement | HeaderBlock | Slotted(el: E)

  /** What `sectionRef.current` holds when the effect reads it: the last of
      its writers. */
  function SectionRefHolder<E>(headerBlockWritesLast: bool): (t: Target<E>)
    ensures t == HeaderBlock <==> headerBlockWritesLast
    ensures !t.Slotted?
  {
    if headerBlockWritesLast then HeaderBlock else SectionElement
  }

  /** A slot array seen as observer targets. */
  function Lift<E>(slots: seq<Option<E>>): (r: seq<Option<Target<E>>>)
    ensures |r| == |slots|
    ensures forall k :: 0 <= k < |slots| ==> r[k] == (if slots[k].Some? then Some(Slotted(slots[k].value)) else None)
  {
    seq(|slots|, k requires 0 <= k < |slots| => if slots[k].Some? then Some(Slotted(slots[k].value)) else None)
  }

  /** The effect watches the element `sectionRef` holds and exactly the held
      slot elements; cleanup reading the same refs unwatches them all. */
  lemma EffectWatches<E(!new)>(holder: Target<E>, slots: seq<Option<E>>)
    ensures forall t :: t in Setup(Some(holder), Lift(slots)) <==>
              t == holder || (t.Slotted? && t.el in Present(slots))
    ensures Cleanup(Setup(Some(holder), Lift(slots)), Some(holder), Lift(slots)) == {}
  {
    var lifted := Lift(slots);
    CleanupUndoesSetup(Some(holder), lifted);
    forall t
      ensures t in Present([Some(holder)] + lifted) <==> t == holder || (t.Slotted? && t.el in Present(slots))
    {
      assert Some(t) in [Some(holder)] + lifted <==> Some(t) == Some(holder) || Some(t) in lifted;
      if t.Slotted? && t.el in Present(slots) {
        var k :| 0 <= k < |slots| && slots[k] == Some(t.el);
        assert lifted[k] == Some(t);
      }
      if Some(t) in lifted {
        var k :| 0 <= k < |lifted| && lifted[k] == Some(t);
        assert slots[k] == Some(t.el);
      }
    }
  }

  /** If `sectionRef` has changed hands between the effect and its cleanup
      (a later render re-ran the heading block's inline callback), cleanup
      unobserves the new holder and the element watched at setup stays
      watched. */
  lemma CleanupAfterHolderChanged<E(!new)>(before: Target<E>, after: Target<E>, slots: seq<Option<E>>)
    requires !before.Slotted? && before != after
    ensures Cleanup(Setup(Some(before), Lift(slots)), Some(after), Lift(slots)) == {before}
  {
    EffectWatches(before, slots);
    var lifted := Lift(slots);
    var watching := Setup(Some(before), lifted);
    assert Some(before) !in lifted;
    forall t ensures t in Cleanup(watching, Some(after), lifted) <==> t == before {
      if t.Slotted? && t in watching {
        assert t.el in Present(slots);
        var k :| 0 <= k < |slots| && slots[k] == Some(t.el);
        assert lifted[k] == Some(t);
      }
    }
  }
}
