/**
 * The support form of support.js as state transitions. It is a smaller copy
 * of the engine of register.js: three text boxes, a presence check that only
 * knows text boxes, the email pattern check without the `validity` flag, and
 * no date checks.
 */
module SupportRules {
  import opened JsText
  import opened EmailSyntax
  import opened FormValidation

  const NameField := Element("name", TextBox, [FilledFields], "Please enter your name.")
  const EmailField := Element("email", TextBox, [FilledFields, EmailFormat], "Please enter a valid email address.")
  const MessageField := Element("message", TextBox, [FilledFields], "The message is required.")

  const AllFields := [NameField, EmailField, MessageField]
  const CheckForValidEmail := [EmailField]

  /** The markers and the global `filled`. */
  datatype State = State(markers: Markers, filled: bool)

  function SetError(st: State, id: string, message: string): State {
    State(st.markers[id := message], false)
  }

  /** One validator loop: a `setError` call per failing element, in order. */
  function RunLoop(st: State, page: Page, c: Check, es: seq<Element>): State {
    var ms := FailureMarks(page, c, es);
    State(ApplyMarks(st.markers, ms), st.filled && ms == [])
  }

  function FilledFieldsValidator(st: State, page: Page, es: seq<Element>): State {
    RunLoop(st, page, TextPresence, es)
  }

  function EmailValidator(st: State, page: Page, es: seq<Element>): State {
    RunLoop(st, page, Syntax, es)
  }

  function ValidateEmails(st: State, page: Page, es: seq<Element>): State {
    EmailValidator(st, page, es)
  }

  /** The validator names the script defines. */
  predicate Defined(v: Validator) {
    v == FilledFields || v == EmailFormat
  }

  /** `window[validator]([e])` for a validator the script defines. */
  function Run(st: State, page: Page, v: Validator, e: Element): State
    requires Defined(v)
  {
    if v == FilledFields then FilledFieldsValidator(st, page, [e]) else EmailValidator(st, page, [e])
  }

  function RunValidators(st: State, page: Page, e: Element, vs: seq<Validator>): State
    requires forall i :: 0 <= i < |vs| ==> Defined(vs[i])
    decreases |vs|
  {
    if vs == [] then st else RunValidators(Run(st, page, vs[0], e), page, e, vs[1..])
  }

  /** The blur handler of field `e`. */
  function Blur(st: State, page: Page, e: Element): State
    requires forall i :: 0 <= i < |e.validators| ==> Defined(e.validators[i])
  {
    RunValidators(State(st.markers - {e.targetId}, st.filled), page, e, e.validators)
  }

  function Submit(st: State, page: Page): State {
    var s1 := FilledFieldsValidator(State(st.markers, true), page, AllFields);
    ValidateEmails(s1, page, CheckForValidEmail)
  }

  /** How the submit handler ends, once `slideToFirstError` has read the first
      marker left by the pass. */
  function SubmitCompletion(st: State, page: Page): SubmitEnd {
    var r := Submit(st, page);
    SlideThenReturn(r.markers, r.filled)
  }

  /** All three fields are non-blank and the email matches the pattern. */
  predicate FormValid(page: Page) {
    && !IsBlank(page.value(NameField.targetId))
    && !IsBlank(page.value(EmailField.targetId))
    && !IsBlank(page.value(MessageField.targetId))
    && IsEmail(page.value(EmailField.targetId))
  }

  /** The field fails some check of its own: blank, or for the email field a
      value the pattern rejects. */
  predicate Invalid(page: Page, e: Element) {
    IsBlank(page.value(e.targetId)) || (e == EmailField && !IsEmail(page.value(e.targetId)))
  }

  lemma RunLoopStep(st: State, page: Page, c: Check, es: seq<Element>, i: nat)
    requires i < |es|
    ensures RunLoop(st, page, c, es[..i + 1])
      == if Fails(page, c, es[i]) then SetError(RunLoop(st, page, c, es[..i]), es[i].targetId, Message(c, es[i]))
         else RunLoop(st, page, c, es[..i])
  {
    var prefix := es[..i + 1];
    assert prefix[..i] == es[..i] && prefix[i] == es[i];
    LoopStep(st.markers, page, c, prefix);
  }

  lemma RunLoopSingle(st: State, page: Page, c: Check, e: Element)
    ensures RunLoop(st, page, c, [e]) == if Fails(page, c, e) then SetError(st, e.targetId, Message(c, e)) else st
  {
    SingleLoop(st.markers, page, c, e);
  }

  /** The submit handler returns true exactly when all three fields are
      non-blank and the email matches the pattern. */
  lemma SubmitPassesIffValid(st: State, page: Page)
    ensures Submit(st, page).filled
      <==> && !IsBlank(page.value(NameField.targetId))
           && !IsBlank(page.value(EmailField.targetId))
           && !IsBlank(page.value(MessageField.targetId))
           && IsEmail(page.value(EmailField.targetId))
  {
    PresencePasses(page);
    SyntaxPasses(page);
  }

  /** The presence loop makes no `setError` call exactly when no field is blank. */
  lemma PresencePasses(page: Page)
    ensures FailureMarks(page, TextPresence, AllFields) == []
      <==> && !IsBlank(page.value(NameField.targetId))
           && !IsBlank(page.value(EmailField.targetId))
           && !IsBlank(page.value(MessageField.targetId))
  {
    NoMarksIffAllPass(page, TextPresence, AllFields);
    TextPresenceByType(page, NameField);
    TextPresenceByType(page, EmailField);
    TextPresenceByType(page, MessageField);
    assert AllFields[0] == NameField && AllFields[1] == EmailField && AllFields[2] == MessageField;
  }

  /** The email loop makes no `setError` call exactly when the email matches. */
  lemma SyntaxPasses(page: Page)
    ensures FailureMarks(page, Syntax, CheckForValidEmail) == [] <==> IsEmail(page.value(EmailField.targetId))
  {
    NoMarksIffAllPass(page, Syntax, CheckForValidEmail);
    assert CheckForValidEmail[0] == EmailField;
  }

  /** After a submit pass every invalid field is marked with its own message,
      and every other marker is as it was: the pass never removes a marker. */
  lemma SubmitMarkers(st: State, page: Page)
    ensures var r := Submit(st, page);
      && (forall k :: 0 <= k < |AllFields| && Invalid(page, AllFields[k]) ==>
            AllFields[k].targetId in r.markers && r.markers[AllFields[k].targetId] == AllFields[k].errorMsg)
      && (forall k :: 0 <= k < |AllFields| && !Invalid(page, AllFields[k]) ==>
            (AllFields[k].targetId in r.markers <==> AllFields[k].targetId in st.markers))
      && (forall id :: id in st.markers ==> id in r.markers)
      && (forall id :: id in st.markers && (forall k :: 0 <= k < |AllFields| ==> AllFields[k].targetId != id) ==>
            r.markers[id] == st.markers[id])
  {
    var s0 := State(st.markers, true);
    var s1 := FilledFieldsValidator(s0, page, AllFields);
    LoopMarkers(s0.markers, page, TextPresence, AllFields);
    LoopMarkers(s1.markers, page, Syntax, CheckForValidEmail);
    forall k | 0 <= k < |AllFields| && Invalid(page, AllFields[k])
      ensures var r := Submit(st, page);
        AllFields[k].targetId in r.markers && r.markers[AllFields[k].targetId] == AllFields[k].errorMsg
    {
      SubmitMarksInvalid(st, page, k);
    }
    forall k | 0 <= k < |AllFields| && !Invalid(page, AllFields[k])
      ensures AllFields[k].targetId in Submit(st, page).markers <==> AllFields[k].targetId in st.markers
    {
      SubmitSkipsValid(st, page, k);
    }
  }

  /** The form goes to the server exactly when all three fields are non-blank
      and the email matches. The handler throws, instead of returning true,
      exactly when the pass is valid and the page held no marker before it;
      either way the browser submits. */
  lemma SubmitCompletes(st: State, page: Page)
    ensures Submits(SubmitCompletion(st, page))
      <==> FormValid(page)
    ensures SubmitCompletion(st, page) == Threw <==> FormValid(page) && st.markers == map[]
  {
    SubmitPassesIffValid(st, page);
    PresencePasses(page);
    SyntaxPasses(page);
    assert AllFields[0] == NameField && AllFields[1] == EmailField && AllFields[2] == MessageField;
    if IsBlank(page.value(NameField.targetId)) {
      SubmitMarksInvalid(st, page, 0);
    } else if IsBlank(page.value(EmailField.targetId)) || !IsEmail(page.value(EmailField.targetId)) {
      SubmitMarksInvalid(st, page, 1);
    } else if IsBlank(page.value(MessageField.targetId)) {
      SubmitMarksInvalid(st, page, 2);
    }
  }

  lemma SubmitMarksInvalid(st: State, page: Page, k: nat)
    requires k < |AllFields| && Invalid(page, AllFields[k])
    ensures var r := Submit(st, page);
      AllFields[k].targetId in r.markers && r.markers[AllFields[k].targetId] == AllFields[k].errorMsg
  {
    var s0 := State(st.markers, true);
    var s1 := FilledFieldsValidator(s0, page, AllFields);
    var e := AllFields[k];
    assert AllFields[0] == NameField && AllFields[1] == EmailField && AllFields[2] == MessageField;
    assert CheckForValidEmail[0] == EmailField;
    TextPresenceByType(page, e);
    if IsBlank(page.value(e.targetId)) {
      assert LastWithId(AllFields, k);
      LoopLastWriter(s0.markers, page, TextPresence, AllFields, k);
      LoopKeepsMarker(s1.markers, page, Syntax, CheckForValidEmail, e.targetId, e.errorMsg);
    } else {
      assert LastWithId(CheckForValidEmail, 0);
      LoopLastWriter(s1.markers, page, Syntax, CheckForValidEmail, 0);
    }
  }

  lemma SubmitSkipsValid(st: State, page: Page, k: nat)
    requires k < |AllFields| && !Invalid(page, AllFields[k])
    ensures AllFields[k].targetId in Submit(st, page).markers <==> AllFields[k].targetId in st.markers
  {
    var s0 := State(st.markers, true);
    var s1 := FilledFieldsValidator(s0, page, AllFields);
    LoopMarkers(s0.markers, page, TextPresence, AllFields);
    LoopMarkers(s1.markers, page, Syntax, CheckForValidEmail);
    ValidPassesPresence(page, k);
    ValidPassesSyntax(page, k);
  }

  /** A valid field is not among the ids the presence loop marks. */
  lemma ValidPassesPresence(page: Page, k: nat)
    requires k < |AllFields| && !Invalid(page, AllFields[k])
    ensures AllFields[k].targetId !in FailedIds(page, TextPresence, AllFields)
  {
    var e := AllFields[k];
    TextPresenceByType(page, e);
    forall j | 0 <= j < |AllFields| && AllFields[j].targetId == e.targetId
      ensures !Fails(page, TextPresence, AllFields[j])
    {
      assert j == k;
    }
  }

  /** A valid field is not among the ids the email loop marks. */
  lemma ValidPassesSyntax(page: Page, k: nat)
    requires k < |AllFields| && !Invalid(page, AllFields[k])
    ensures AllFields[k].targetId !in FailedIds(page, Syntax, CheckForValidEmail)
  {
    assert CheckForValidEmail == [EmailField];
    if AllFields[k].targetId == EmailField.targetId {
      assert k == 1;
    }
  }

  lemma RunValidatorsOne(st: State, page: Page, e: Element, a: Validator)
    requires Defined(a)
    ensures RunValidators(st, page, e, [a]) == Run(st, page, a, e)
  {
    assert [a][1..] == [];
  }

  lemma RunValidatorsTwo(st: State, page: Page, e: Element, a: Validator, b: Validator)
    requires Defined(a) && Defined(b)
    ensures RunValidators(st, page, e, [a, b]) == Run(Run(st, page, a, e), page, b, e)
  {
    assert [a, b][1..] == [b];
    RunValidatorsOne(Run(st, page, a, e), page, e, b);
  }

  /** Blurring a field clears its own marker and runs its own checks: the field
      ends marked with its own message exactly when it is invalid, and no other
      marker changes. */
  lemma BlurField(st: State, page: Page, k: nat)
    requires k < |AllFields|
    ensures var e := AllFields[k]; var r := Blur(st, page, e);
      && r.markers == (if Invalid(page, e) then st.markers[e.targetId := e.errorMsg] else st.markers - {e.targetId})
      && r.filled == (st.filled && !Invalid(page, e))
  {
    var e := AllFields[k];
    var s0 := State(st.markers - {e.targetId}, st.filled);
    assert AllFields[0] == NameField && AllFields[1] == EmailField && AllFields[2] == MessageField;
    if k == 1 {
      BlurEmailField(st, page);
    } else {
      TextPresenceByType(page, e);
      RunLoopSingle(s0, page, TextPresence, e);
      RunValidatorsOne(s0, page, e, FilledFields);
    }
  }

  /** The email field: presence, then the pattern. */
  lemma BlurEmailField(st: State, page: Page)
    ensures var e := EmailField; var r := Blur(st, page, e);
      && r.markers == (if Invalid(page, e) then st.markers[e.targetId := e.errorMsg] else st.markers - {e.targetId})
      && r.filled == (st.filled && !Invalid(page, e))
  {
    var e := EmailField;
    var s0 := State(st.markers - {e.targetId}, st.filled);
    RunValidatorsTwo(s0, page, e, FilledFields, EmailFormat);
    EmailFieldChecks(s0, page);
    RemoveThenSet(st.markers, e.targetId, e.errorMsg);
  }

  /** The presence check and the pattern on the email field mark it once, with
      its own message, exactly when it is invalid. */
  lemma EmailFieldChecks(s0: State, page: Page)
    ensures var e := EmailField; var r := Run(Run(s0, page, FilledFields, e), page, EmailFormat, e);
      r == if Invalid(page, e) then SetError(s0, e.targetId, e.errorMsg) else s0
  {
    var e := EmailField;
    var v := page.value(e.targetId);
    TextPresenceByType(page, e);
    RunLoopSingle(s0, page, TextPresence, e);
    var s1 := Run(s0, page, FilledFields, e);
    RunLoopSingle(s1, page, Syntax, e);
    if IsEmail(v) {
      EmailHasNoOuterSpace(v);
      assert !IsBlank(v);
    }
  }
}
