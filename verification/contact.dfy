/** The contact form: trim-based required-field checks, the email shape
    pattern `^[^\s@]+@[^\s@]+\.[^\s@]+$`, the error map, and the submission
    status machine `idle -> submitting -> submitted -> idle`. */
module Contact {
  import opened Collections
  import Reveal

  // ---------------------------------------------------------------------
  // Whitespace, as both `String.prototype.trim` and the regular-expression
  // class `\s` understand it: the ECMAScript WhiteSpace and LineTerminator
  // code points.

  predicate IsSpace(c: char) {
    var u := c as int;
    (9 <= u <= 13)                      // tab, line feed, vertical tab, form feed, carriage return
    || u == 0x20 || u == 0xA0 || u == 0x1680
    || (0x2000 <= u <= 0x200A)
    || u == 0x2028 || u == 0x2029       // line and paragraph separators
    || u == 0x202F || u == 0x205F || u == 0x3000
    || u == 0xFEFF                      // zero width no-break space
  }

  predicate AllSpace(s: string) {
    forall k :: 0 <= k < |s| ==> IsSpace(s[k])
  }

  /** Drops leading whitespace: the result is the suffix that starts at the
      first non-whitespace character. */
  function TrimStart(s: string): (r: string)
    ensures |r| <= |s| && r == s[|s| - |r|..]
    ensures AllSpace(s[..|s| - |r|])
    ensures |r| > 0 ==> !IsSpace(r[0])
  {
    if |s| > 0 && IsSpace(s[0]) then TrimStart(s[1..]) else s
  }

  /** Drops trailing whitespace: the result is the prefix that ends at the
      last non-whitespace character. */
  function TrimEnd(s: string): (r: string)
    ensures |r| <= |s| && r == s[..|r|]
    ensures AllSpace(s[|r|..])
    ensures |r| > 0 ==> !IsSpace(r[|r| - 1])
  {
    if |s| > 0 && IsSpace(s[|s| - 1]) then TrimEnd(s[..|s| - 1]) else s
  }

  /** `s.trim()`: the trimmed text is empty exactly when `s` is all
      whitespace, and otherwise starts and ends with a non-whitespace
      character. */
  function Trim(s: string): (r: string)
    ensures |r| == 0 <==> AllSpace(s)
    ensures |r| > 0 ==> !IsSpace(r[0]) && !IsSpace(r[|r| - 1])
  {
    TrimmedEmptyMeansAllSpace(s);
    TrimmedNonEmptyEnds(s);
    TrimEnd(TrimStart(s))
  }

  lemma TrimmedEmptyMeansAllSpace(s: string)
    ensures |TrimEnd(TrimStart(s))| == 0 ==> AllSpace(s)
  {
    var t := TrimStart(s);
    var r := TrimEnd(t);
    var cut := |s| - |t|;
    if |r| == 0 {
      assert t == t[|r|..];
      assert s[..cut] == s;
    }
  }

  lemma TrimmedNonEmptyEnds(s: string)
    ensures var r := TrimEnd(TrimStart(s));
            |r| > 0 ==> !AllSpace(s) && !IsSpace(r[0]) && !IsSpace(r[|r| - 1])
  {
    var t := TrimStart(s);
    var r := TrimEnd(t);
    var cut := |s| - |t|;
    if |r| > 0 {
      assert r[0] == t[0];
      assert t[0] == s[cut];
      assert !IsSpace(s[cut]);
    }
  }

  /** `!value.trim()`: the empty string is falsy. */
  predicate IsBlank(s: string) {
    Trim(s) == ""
  }

  // ---------------------------------------------------------------------
  // The email pattern `^[^\s@]+@[^\s@]+\.[^\s@]+$`, tested on the untrimmed
  // value.

  /** A character of the class `[^\s@]`. */
  predicate IsPlain(c: char) {
    !IsSpace(c) && c != '@'
  }

  predicate AllPlain(s: string) {
    forall k :: 0 <= k < |s| ==> IsPlain(s[k])
  }

  /** `s` splits as `local @ host . tail` with the `@` at `at` and the `.` at
      `dot`, each of the three runs a non-empty run of `[^\s@]`. */
  predicate SplitsAt(s: string, at: nat, dot: nat) {
    0 < at && at + 1 < dot && dot + 1 < |s|
    && s[at] == '@' && s[dot] == '.'
    && AllPlain(s[..at]) && AllPlain(s[at + 1..dot]) && AllPlain(s[dot + 1..])
  }

  /** What the regular expression accepts: some split of the whole string
      into three non-empty runs of `[^\s@]` joined by a literal `@` and a
      literal `.`. The runs may themselves contain dots. */
  ghost predicate MatchesEmailRegex(s: string) {
    exists at: nat, dot: nat :: SplitsAt(s, at, dot)
  }

  /** Index of the first occurrence of `c`. */
  function IndexOf(s: string, c: char): (r: Option<nat>)
    ensures r.None? <==> c !in s
    ensures r.Some? ==> r.value < |s| && s[r.value] == c && c !in s[..r.value]
  {
    if |s| == 0 then None
    else if s[0] == c then Some(0)
    else
      match IndexOf(s[1..], c)
      case None => None
      case Some(k) =>
        assert s[..k + 1] == [s[0]] + s[1..][..k];
        Some(k + 1)
  }

  /** The domain has a `.` with at least one character on each side. */
  predicate HasInnerDot(domain: string) {
    exists k :: 0 < k < |domain| - 1 && domain[k] == '.'
  }

  /** `/^[^\s@]+@[^\s@]+\.[^\s@]+$/.test(s)`, decided by locating the `@`. */
  function EmailPatternTest(s: string): bool {
    match IndexOf(s, '@')
    case None => false
    case Some(at) =>
      0 < at && AllPlain(s[..at]) && AllPlain(s[at + 1..]) && HasInnerDot(s[at + 1..])
  }

  /** The test accepts exactly the strings the regular expression matches. */
  lemma EmailPatternTestMatchesRegex(s: string)
    ensures EmailPatternTest(s) <==> MatchesEmailRegex(s)
  {
    if EmailPatternTest(s) {
      AcceptedEmailMatchesRegex(s);
    }
    if MatchesEmailRegex(s) {
      var at: nat, dot: nat :| SplitsAt(s, at, dot);
      SplitEmailAccepted(s, at, dot);
    }
  }

  lemma AcceptedEmailMatchesRegex(s: string)
    requires EmailPatternTest(s)
    ensures MatchesEmailRegex(s)
  {
    var at := IndexOf(s, '@').value;
    var domain := s[at + 1..];
    var k :| 0 < k < |domain| - 1 && domain[k] == '.';
    var dot := at + 1 + k;
    assert s[at + 1..dot] == domain[..k];
    assert s[dot + 1..] == domain[k + 1..];
    assert SplitsAt(s, at, dot);
  }

  lemma SplitEmailAccepted(s: string, at: nat, dot: nat)
    requires SplitsAt(s, at, dot)
    ensures EmailPatternTest(s)
  {
    assert '@' !in s[..at] by {
      forall k | 0 <= k < at ensures s[..at][k] != '@' {
        assert IsPlain(s[..at][k]);
      }
    }
    assert IndexOf(s, '@') == Some(at);
    var domain := s[at + 1..];
    forall k | 0 <= k < |domain| ensures IsPlain(domain[k]) {
      if at + 1 + k < dot {
        assert domain[k] == s[at + 1..dot][k];
      } else if at + 1 + k > dot {
        assert domain[k] == s[dot + 1..][k - (dot - at)];
      }
    }
    assert domain[dot - at - 1] == '.';
  }

  /** An accepted address has no whitespace anywhere and exactly one `@`,
      preceded by a non-empty local part. */
  lemma AcceptedEmailShape(s: string)
    requires EmailPatternTest(s)
    ensures forall k :: 0 <= k < |s| ==> !IsSpace(s[k])
    ensures exists at :: 0 < at < |s| && s[at] == '@' && forall k :: 0 <= k < |s| && s[k] == '@' ==> k == at
  {
    var at := IndexOf(s, '@').value;
    forall k | 0 <= k < |s| ensures !IsSpace(s[k]) && (s[k] == '@' ==> k == at) {
      if k < at {
        assert s[k] == s[..at][k];
      } else if k > at {
        assert s[k] == s[at + 1..][k - at - 1];
      }
    }
  }

  /** An accepted address is never blank. */
  lemma AcceptedEmailNotBlank(s: string)
    requires EmailPatternTest(s)
    ensures !IsBlank(s)
  {
    AcceptedEmailShape(s);
    assert !IsSpace(s[0]);
  }

  /** A blank address never reaches the pattern's verdict in `validateForm`,
      and the pattern would reject it anyway. */
  lemma BlankEmailRejected(s: string)
    ensures IsBlank(s) ==> !EmailPatternTest(s)
  {
    if EmailPatternTest(s) {
      AcceptedEmailNotBlank(s);
    }
  }

  /** The pattern sees the untrimmed value: given a value with a leading
      space, the handler reports a format error even though the value is not
      blank. */
  lemma LeadingSpaceIsFormatError(s: string)
    requires |s| > 0 && IsSpace(s[0])
    ensures !EmailPatternTest(s)
  {
    if EmailPatternTest(s) {
      AcceptedEmailShape(s);
    }
  }

  // ---------------------------------------------------------------------
  // Validation

  datatype Field = FullName | Email | Subject | Message

  datatype Form = Form(fullName: string, email: string, subject: string, message: string)

  const EmptyForm := Form("", "", "", "")

  const NameRequired := "Name is required"
  const EmailRequired := "Email is required"
  const EmailInvalid := "Invalid email format"
  const MessageRequired := "Message is required"

  /** The error map `validateForm` builds: name and message are required after
      trimming; the email is required after trimming and otherwise must match
      the pattern; the subject is never checked. */
  function Validate(f: Form): (errors: map<Field, string>)
    ensures errors.Keys <= {FullName, Email, Message}
    ensures FullName in errors <==> IsBlank(f.fullName)
    ensures Message in errors <==> IsBlank(f.message)
    ensures Email in errors <==> !EmailPatternTest(f.email)
    ensures FullName in errors ==> errors[FullName] == NameRequired
    ensures Message in errors ==> errors[Message] == MessageRequired
    ensures Email in errors ==> errors[Email] == (if IsBlank(f.email) then EmailRequired else EmailInvalid)
  {
    BlankEmailRejected(f.email);
    var afterName: map<Field, string> := if IsBlank(f.fullName) then map[FullName := NameRequired] else map[];
    var afterEmail :=
      if IsBlank(f.email) then afterName[Email := EmailRequired]
      else if !EmailPatternTest(f.email) then afterName[Email := EmailInvalid]
      else afterName;
    if IsBlank(f.message) then afterEmail[Message := MessageRequired] else afterEmail
  }

  /** `validateForm()`'s result: true exactly when the error map is empty,
      which is when name and message are not blank and the email matches. */
  function IsValid(f: Form): (valid: bool)
    ensures valid <==> Validate(f) == map[]
    ensures valid <==> !IsBlank(f.fullName) && !IsBlank(f.message) && EmailPatternTest(f.email)
  {
    var errors := Validate(f);
    if |errors| == 0 then true
    else
      assert errors != map[];
      false
  }

  // ---------------------------------------------------------------------
  // Submission status machine

  /** `FormStatus`: `"error"` is part of the type but never assigned. */
  datatype Status = Idle | Submitting | Submitted | Error

  /** The form's state, with the two `setTimeout` callbacks modelled as
      counts of scheduled-but-not-yet-fired timers. */
  datatype ContactState = ContactState(
    form: Form,
    status: Status,
    errors: map<Field, string>,
    pendingSends: nat,    // the 1500 ms "message sent" callbacks
    pendingResets: nat    // the 3000 ms "back to idle" callbacks
  )

  const InitialContact := ContactState(EmptyForm, Idle, map[], 0, 0)

  datatype ContactEvent =
    | Edit(field: Field, value: string)   // an input's onChange
    | Submit                              // the form's onSubmit
    | SendTimerFired
    | ResetTimerFired

  /** Every input and the submit button carry `disabled={formStatus === "submitting"}`. */
  predicate ControlsDisabled(s: ContactState) {
    s.status == Submitting
  }

  /** The value of one field, as its input shows it. */
  function Get(f: Form, field: Field): string {
    match field
    case FullName => f.fullName
    case Email => f.email
    case Subject => f.subject
    case Message => f.message
  }

  /** One input's `onChange`: each field has its own state setter
      (`setFullName`, `setEmail`, `setSubject`, `setMessage`) called with the
      input's value. */
  function SetField(f: Form, field: Field, value: string): (g: Form)
    ensures Get(g, field) == value
    ensures forall other :: other != field ==> Get(g, other) == Get(f, other)
  {
    match field
    case FullName => f.(fullName := value)
    case Email => f.(email := value)
    case Subject => f.(subject := value)
    case Message => f.(message := value)
  }

  /** A form is determined by its four fields. */
  lemma FormsEqualByFields(f: Form, g: Form)
    requires forall field :: Get(f, field) == Get(g, field)
    ensures f == g
  {
    assert Get(f, FullName) == Get(g, FullName) && Get(f, Email) == Get(g, Email);
    assert Get(f, Subject) == Get(g, Subject) && Get(f, Message) == Get(g, Message);
  }

  /** Writing a field's current value changes nothing, and of two writes to
      the same field the later one wins. */
  lemma SetFieldLaws(f: Form, field: Field, v: string, w: string)
    ensures SetField(f, field, Get(f, field)) == f
    ensures SetField(SetField(f, field, v), field, w) == SetField(f, field, w)
  {
    FormsEqualByFields(SetField(f, field, Get(f, field)), f);
    FormsEqualByFields(SetField(SetField(f, field, v), field, w), SetField(f, field, w));
  }

  /** `handleSubmit`: record the errors; an invalid form returns early, a
      valid one goes to submitting and schedules the send callback. */
  function HandleSubmit(s: ContactState): (t: ContactState)
    ensures t.errors == Validate(s.form) && t.form == s.form && t.pendingResets == s.pendingResets
    ensures !IsValid(s.form) ==> t.status == s.status && t.pendingSends == s.pendingSends && t.errors != map[]
    ensures IsValid(s.form) ==> t.status == Submitting && t.pendingSends == s.pendingSends + 1 && t.errors == map[]
  {
    var errors := Validate(s.form);
    var s' := s.(errors := errors);
    if |errors| != 0 then s'
    else s'.(status := Submitting, pendingSends := s.pendingSends + 1)
  }

  /** One event. Edits and submits are dropped while the controls are
      disabled; a timer fires only if one was scheduled. */
  function Step(s: ContactState, e: ContactEvent): (t: ContactState)
    ensures ControlsDisabled(s) && (e.Edit? || e.Submit?) ==> t == s
    ensures e.SendTimerFired? && s.pendingSends > 0 ==> t.status == Submitted && t.form == EmptyForm
    ensures e.ResetTimerFired? && s.pendingResets > 0 ==> t.status == Idle && t.form == s.form
    ensures e.Edit? ==> t.status == s.status
    ensures e.Edit? && !ControlsDisabled(s) ==> t == s.(form := SetField(s.form, e.field, e.value))
  {
    match e
    case Edit(field, value) =>
      if ControlsDisabled(s) then s else s.(form := SetField(s.form, field, value))
    case Submit =>
      if ControlsDisabled(s) then s else HandleSubmit(s)
    case SendTimerFired =>
      if s.pendingSends == 0 then s
      else s.(status := Submitted, form := EmptyForm,
               pendingSends := s.pendingSends - 1, pendingResets := s.pendingResets + 1)
    case ResetTimerFired =>
      if s.pendingResets == 0 then s
      else s.(status := Idle, pendingResets := s.pendingResets - 1)
  }

  function Run(s: ContactState, events: seq<ContactEvent>): ContactState
    decreases |events|
  {
    if |events| == 0 then s else Run(Step(s, events[0]), events[1..])
  }

  /** What holds in every reachable state: `"error"` is never assigned, and
      while submitting the form is valid and a send callback is pending, so
      the form cannot stay stuck in submitting. */
  ghost predicate Invariant(s: ContactState) {
    s.status != Error
    && (s.status == Submitting ==> IsValid(s.form) && s.pendingSends > 0)
  }

  lemma StepPreservesInvariant(s: ContactState, e: ContactEvent)
    requires Invariant(s)
    ensures Invariant(Step(s, e))
  {
    match e
    case Edit(_, _) =>
    case Submit =>
      if !ControlsDisabled(s) {
        var t := HandleSubmit(s);
        assert t.status == s.status || (t.status == Submitting && IsValid(t.form));
      }
    case SendTimerFired =>
    case ResetTimerFired =>
  }

  lemma {:induction false} RunPreservesInvariant(s: ContactState, events: seq<ContactEvent>)
    requires Invariant(s)
    ensures Invariant(Run(s, events))
    decreases |events|
  {
    if |events| > 0 {
      StepPreservesInvariant(s, events[0]);
      RunPreservesInvariant(Step(s, events[0]), events[1..]);
    }
  }

  /** From the initial state, no sequence of events reaches `"error"`. */
  lemma NeverError(events: seq<ContactEvent>)
    ensures Run(InitialContact, events).status != Error
  {
    RunPreservesInvariant(InitialContact, events);
  }

  /** An invalid submit changes neither the status nor any field value. */
  lemma InvalidSubmitChangesNothingButErrors(s: ContactState)
    requires !ControlsDisabled(s) && !IsValid(s.form)
    ensures Step(s, Submit).status == s.status && Step(s, Submit).form == s.form
    ensures Step(s, Submit).errors == Validate(s.form) != map[]
  {
  }

  /** A valid submit from a state whose controls are enabled. */
  lemma ValidSubmit(s: ContactState)
    requires !ControlsDisabled(s) && IsValid(s.form)
    ensures Step(s, Submit) == s.(status := Submitting, errors := map[], pendingSends := s.pendingSends + 1)
  {
  }

  /** After a valid submit from the initial state, the two timers bring the
      form to submitted with every field cleared, then back to the initial
      state. */
  lemma TimersCompleteCycle(f: Form)
    ensures Run(ContactState(f, Submitting, map[], 1, 0), [SendTimerFired]).status == Submitted
    ensures Run(ContactState(f, Submitting, map[], 1, 0), [SendTimerFired]).form == EmptyForm
    ensures Run(ContactState(f, Submitting, map[], 1, 0), [SendTimerFired, ResetTimerFired]) == InitialContact
  {
    var s1 := ContactState(f, Submitting, map[], 1, 0);
    var s2 := ContactState(EmptyForm, Submitted, map[], 0, 1);
    assert Step(s1, SendTimerFired) == s2;
    assert Step(s2, ResetTimerFired) == InitialContact;
    assert Run(s1, [SendTimerFired]) == Run(s2, []);
    assert Run(s1, [SendTimerFired, ResetTimerFired]) == Run(s2, [ResetTimerFired]);
    assert Run(s2, [ResetTimerFired]) == Run(InitialContact, []);
  }

  /** The successful cycle: idle, submitting with the fields kept, submitted
      with all four fields cleared (subject included), then idle again, which
      is exactly the initial state. */
  lemma SuccessfulCycle(f: Form)
    requires IsValid(f)
    ensures Step(InitialContact.(form := f), Submit).status == Submitting
    ensures Step(InitialContact.(form := f), Submit).form == f
    ensures Run(InitialContact.(form := f), [Submit, SendTimerFired]).status == Submitted
    ensures Run(InitialContact.(form := f), [Submit, SendTimerFired]).form == EmptyForm
    ensures Run(InitialContact.(form := f), [Submit, SendTimerFired, ResetTimerFired]) == InitialContact
  {
    var s0 := InitialContact.(form := f);
    ValidSubmit(s0);
    TimersCompleteCycle(f);
    TimersFollowSubmit(s0, f);
  }

  /** Once a submit has produced the submitting state, the remaining events
      run from there. */
  lemma TimersFollowSubmit(s0: ContactState, f: Form)
    requires Step(s0, Submit) == ContactState(f, Submitting, map[], 1, 0)
    ensures Run(s0, [Submit, SendTimerFired]) == Run(Step(s0, Submit), [SendTimerFired])
    ensures Run(s0, [Submit, SendTimerFired, ResetTimerFired]) == Run(Step(s0, Submit), [SendTimerFired, ResetTimerFired])
  {
    assert [Submit, SendTimerFired][1..] == [SendTimerFired];
    assert [Submit, SendTimerFired, ResetTimerFired][1..] == [SendTimerFired, ResetTimerFired];
  }

  // ---------------------------------------------------------------------
  // Ref slots: the information column writes `animationRefs.current[0]` and
  // the form card `animationRefs.current[1]`.

  datatype ContactElement = InfoColumn | FormCard

  /** The slots after both callbacks ran, the information column's first. */
  function RenderedSlots(): seq<Option<ContactElement>> {
    Reveal.WriteSlot(Reveal.WriteSlot([], 0, Some(InfoColumn)), 1, Some(FormCard))
  }

  /** Both indices are constants, so unlike the appending sections the
      callbacks' order does not matter: either order leaves the information
      column in slot 0 and the form card in slot 1, with no hole. */
  lemma RenderedSlotsOrderIndependent()
    ensures RenderedSlots() == [Some(InfoColumn), Some(FormCard)]
    ensures Reveal.WriteSlot(Reveal.WriteSlot([], 1, Some(FormCard)), 0, Some(InfoColumn)) == RenderedSlots()
  {
    var empty: seq<Option<ContactElement>> := [];
    var first := Reveal.WriteSlot(empty, 0, Some(InfoColumn));
    assert first == [Some(InfoColumn)];
    var other := Reveal.WriteSlot(empty, 1, Some(FormCard));
    assert other == [None, Some(FormCard)];
  }

  /** The effect observes the element `sectionRef` holds (the `<section>`,
      or the heading block when its callback wrote the ref last) and both
      cards; its cleanup, reading the same refs, unobserves them all. */
  lemma EffectCleanupUndoesSetup(headerBlockWritesLast: bool)
    ensures var holder := Reveal.SectionRefHolder<ContactElement>(headerBlockWritesLast);
            var watching := Reveal.Setup(Some(holder), Reveal.Lift(RenderedSlots()));
            (forall t :: t in watching <==> t == holder || t.Slotted?)
            && (Reveal.HeaderBlock in watching <==> headerBlockWritesLast)
            && Reveal.Cleanup(watching, Some(holder), Reveal.Lift(RenderedSlots())) == {}
  {
    RenderedSlotsOrderIndependent();
    var slots := RenderedSlots();
    forall e ensures e in Reveal.Present(slots) {
      assert slots[if e == InfoColumn then 0 else 1] == Some(e);
    }
    Reveal.EffectWatches(Reveal.SectionRefHolder<ContactElement>(headerBlockWritesLast), slots);
  }
}
