/**
 * The declarative field-validation engine of register.js and of its smaller copy
 * support.js, as far as the two share it: the `Element` records, the page the
 * validators read, the error markers they write, and the per-element tests of
 * each validator loop.
 *
 * A validator loop walks a list of elements and calls `setError(id, message)`
 * for each element that fails its test. `setError` removes the marker
 * `#error-<id>` and inserts a new one, so a page holds at most one marker per
 * field id; the markers are modelled as a map from field id to message. Where a
 * marker is inserted (after the field, or after `#checkbox-error`) is layout and
 * is not modelled.
 */
module FormValidation {
  import opened JsText
  import opened EmailSyntax

  /** The `type` of an `Element`; anything else is reported as not supported. */
  datatype FieldType = TextBox | Select | CheckBox | Recaptcha | Unsupported(name: string)

  /** The validator names an `Element` lists, which the scripts look up on `window`. */
  datatype Validator =
    | FilledFields
    | EmailFormat
    | MatchEmail
    | YearRange
    | MonthRange
    | DayRange
    | DateCheck

  /** `new Element(targetId, type, validators, errorMsg)` */
  datatype Element = Element(targetId: string, fieldType: FieldType, validators: seq<Validator>, errorMsg: string)

  /** What the validators read from the page: the value of each field (every
      registered field exists), the set of checked boxes, and the reCAPTCHA
      response token. */
  datatype Page = Page(value: string -> string, checked: set<string>, captchaResponse: string)

  /** The error markers on the page: field id to message. */
  type Markers = map<string, string>

  /** One `setError(id, message)` call. */
  datatype Mark = Mark(id: string, message: string)

  /** The test a validator loop applies to each of its elements. */
  datatype Check =
    | Presence                                      // filledFieldsValidator of register.js
    | TextPresence                                  // filledFieldsValidator of support.js
    | Syntax                                        // emailValidator
    | Mismatch(primaryId: string, message: string)  // matchEmailValidator
    | Range(lo: int, hi: int)                       // yearValidator, monthValidator, dayValidator

  /** The element fails the test on this page. */
  predicate Fails(page: Page, c: Check, e: Element) {
    match c
    case Presence =>
      (match e.fieldType
       case TextBox => Trim(page.value(e.targetId)) == []
       case Select => Trim(page.value(e.targetId)) == []
       case CheckBox => e.targetId !in page.checked
       case Recaptcha => page.captchaResponse == []
       case Unsupported(_) => false)
    case TextPresence => e.fieldType == TextBox && Trim(page.value(e.targetId)) == []
    case Syntax => !IsEmail(page.value(e.targetId))
    case Mismatch(primaryId, _) => page.value(primaryId) != page.value(e.targetId)
    case Range(lo, hi) => OutOfRange(page.value(e.targetId), lo, hi)
  }

  /** The message a failing element is marked with: its own, except for the
      fixed message of the email match. */
  function Message(c: Check, e: Element): string {
    if c.Mismatch? then c.message else e.errorMsg
  }

  /** The `setError` calls a validator loop makes over `es`, in order. */
  function FailureMarks(page: Page, c: Check, es: seq<Element>): seq<Mark>
  {
    if es == [] then []
    else
      var e := es[|es| - 1];
      FailureMarks(page, c, es[..|es| - 1]) + (if Fails(page, c, e) then [Mark(e.targetId, Message(c, e))] else [])
  }

  /** The ids of the elements of `es` that fail. */
  function FailedIds(page: Page, c: Check, es: seq<Element>): set<string> {
    set k | 0 <= k < |es| && Fails(page, c, es[k]) :: es[k].targetId
  }

  /** The markers after a sequence of `setError` calls. */
  function ApplyMarks(markers: Markers, ms: seq<Mark>): Markers
  {
    if ms == [] then markers
    else
      var m := ms[|ms| - 1];
      ApplyMarks(markers, ms[..|ms| - 1])[m.id := m.message]
  }

  /** No later element of `es` has the id of `es[k]`, so its mark is the last
      one written for that id. */
  predicate LastWithId(es: seq<Element>, k: nat) {
    k < |es| && forall j :: k < j < |es| ==> es[j].targetId != es[k].targetId
  }

  /** How a submit handler ends: it returns a value, or it throws. */
  datatype SubmitEnd = Returned(value: bool) | Threw

  /** The browser goes on with the form's own submission unless the handler
      returned false; a handler that throws leaves that default in place. */
  predicate Submits(e: SubmitEnd) {
    e != Returned(false)
  }

  /** `slideToFirstError(); return filled;`. The slide reads the offset of the
      first marker on the page. With no marker, `$(undefined).offset()` is
      undefined and reading its `top` throws a TypeError, so the handler never
      reaches its `return`. */
  function SlideThenReturn(markers: Markers, filled: bool): (r: SubmitEnd)
    ensures r == Threw <==> markers == map[]
    ensures Submits(r) <==> filled || markers == map[]
  {
    if markers == map[] then Threw else Returned(filled)
  }

  /** Setting a marker after removing it is setting it. */
  lemma RemoveThenSet(m: Markers, id: string, message: string)
    ensures (m - {id})[id := message] == m[id := message]
  {
  }

  /** A loop makes no `setError` call exactly when every element passes. */
  lemma {:induction false} NoMarksIffAllPass(page: Page, c: Check, es: seq<Element>)
    ensures FailureMarks(page, c, es) == [] <==> forall k :: 0 <= k < |es| ==> !Fails(page, c, es[k])
    decreases |es|
  {
    if es != [] {
      var front := es[..|es| - 1];
      NoMarksIffAllPass(page, c, front);
      assert forall k :: 0 <= k < |front| ==> front[k] == es[k];
    }
  }

  lemma ApplyMarksSnoc(markers: Markers, ms: seq<Mark>, m: Mark)
    ensures ApplyMarks(markers, ms + [m]) == ApplyMarks(markers, ms)[m.id := m.message]
  {
    assert (ms + [m])[..|ms|] == ms;
  }

  /** The ids a loop over `es` marks are those of the last element plus those of the front. */
  lemma FailedIdsSnoc(page: Page, c: Check, es: seq<Element>)
    requires es != []
    ensures var front, e := es[..|es| - 1], es[|es| - 1];
      FailedIds(page, c, es) == FailedIds(page, c, front) + (if Fails(page, c, e) then {e.targetId} else {})
  {
    var front := es[..|es| - 1];
    assert forall k :: 0 <= k < |front| ==> front[k] == es[k];
  }

  /** One loop step: the markers after `es` are those after its front, updated
      for the last element when it fails. */
  lemma LoopStep(markers: Markers, page: Page, c: Check, es: seq<Element>)
    requires es != []
    ensures var front, e := es[..|es| - 1], es[|es| - 1];
      var before := ApplyMarks(markers, FailureMarks(page, c, front));
      ApplyMarks(markers, FailureMarks(page, c, es))
        == if Fails(page, c, e) then before[e.targetId := Message(c, e)] else before
  {
    var front, e := es[..|es| - 1], es[|es| - 1];
    if Fails(page, c, e) {
      var m := Mark(e.targetId, Message(c, e));
      assert FailureMarks(page, c, es) == FailureMarks(page, c, front) + [m];
      ApplyMarksSnoc(markers, FailureMarks(page, c, front), m);
    } else {
      assert FailureMarks(page, c, es) == FailureMarks(page, c, front) + [];
      assert FailureMarks(page, c, front) + [] == FailureMarks(page, c, front);
    }
  }

  /** After a validator loop, the marked ids are the old ones plus the failing
      ones, and the marker of every id that passes is unchanged. */
  lemma LoopMarkers(markers: Markers, page: Page, c: Check, es: seq<Element>)
    ensures var r := ApplyMarks(markers, FailureMarks(page, c, es));
      && r.Keys == markers.Keys + FailedIds(page, c, es)
      && (forall id :: id in markers && id !in FailedIds(page, c, es) ==> r[id] == markers[id])
  {
    LoopKeys(markers, page, c, es);
    LoopKeepsPassing(markers, page, c, es);
  }

  lemma {:induction false} LoopKeys(markers: Markers, page: Page, c: Check, es: seq<Element>)
    ensures ApplyMarks(markers, FailureMarks(page, c, es)).Keys == markers.Keys + FailedIds(page, c, es)
    decreases |es|
  {
    if es != [] {
      var front := es[..|es| - 1];
      LoopKeys(markers, page, c, front);
      FailedIdsSnoc(page, c, es);
      LoopStep(markers, page, c, es);
    }
  }

  lemma {:induction false} LoopKeepsPassing(markers: Markers, page: Page, c: Check, es: seq<Element>)
    ensures var r := ApplyMarks(markers, FailureMarks(page, c, es));
      forall id :: id in markers && id !in FailedIds(page, c, es) ==> id in r && r[id] == markers[id]
    decreases |es|
  {
    if es != [] {
      var front := es[..|es| - 1];
      LoopKeepsPassing(markers, page, c, front);
      FailedIdsSnoc(page, c, es);
      LoopStep(markers, page, c, es);
    }
  }

  /** A failing element ends with its own message unless a later element with
      the same id overwrote it: the last writer wins. */
  lemma {:induction false} LoopLastWriter(markers: Markers, page: Page, c: Check, es: seq<Element>, k: nat)
    requires k < |es| && Fails(page, c, es[k]) && LastWithId(es, k)
    ensures var r := ApplyMarks(markers, FailureMarks(page, c, es));
      es[k].targetId in r && r[es[k].targetId] == Message(c, es[k])
    decreases |es|
  {
    var front := es[..|es| - 1];
    LoopStep(markers, page, c, es);
    if k < |front| {
      assert front[k] == es[k];
      assert LastWithId(front, k);
      LoopLastWriter(markers, page, c, front, k);
    }
  }

  /** A loop over a single element marks it exactly when it fails. */
  lemma SingleLoop(markers: Markers, page: Page, c: Check, e: Element)
    ensures FailureMarks(page, c, [e]) == if Fails(page, c, e) then [Mark(e.targetId, Message(c, e))] else []
    ensures FailedIds(page, c, [e]) == if Fails(page, c, e) then {e.targetId} else {}
    ensures ApplyMarks(markers, FailureMarks(page, c, [e]))
      == if Fails(page, c, e) then markers[e.targetId := Message(c, e)] else markers
  {
    SingleMarks(page, c, e);
    SingleFailedIds(page, c, e);
    if Fails(page, c, e) {
      var m := Mark(e.targetId, Message(c, e));
      assert FailureMarks(page, c, [e]) == [] + [m];
      ApplyMarksSnoc(markers, [], m);
    } else {
      assert FailureMarks(page, c, [e]) == [];
    }
  }

  lemma SingleMarks(page: Page, c: Check, e: Element)
    ensures FailureMarks(page, c, [e]) == if Fails(page, c, e) then [Mark(e.targetId, Message(c, e))] else []
  {
    assert [e][..0] == [];
  }

  lemma SingleFailedIds(page: Page, c: Check, e: Element)
    ensures FailedIds(page, c, [e]) == if Fails(page, c, e) then {e.targetId} else {}
  {
    FailedIdsSnoc(page, c, [e]);
    assert [e][..0] == [];
    assert FailedIds(page, c, []) == {};
  }

  /** A loop that writes only `message` for `id` keeps the marker `id -> message`. */
  lemma {:induction false} LoopKeepsMarker(markers: Markers, page: Page, c: Check, es: seq<Element>, id: string, message: string)
    requires id in markers && markers[id] == message
    requires forall j :: 0 <= j < |es| && es[j].targetId == id ==> Message(c, es[j]) == message
    ensures var r := ApplyMarks(markers, FailureMarks(page, c, es)); id in r && r[id] == message
    decreases |es|
  {
    if es != [] {
      var front := es[..|es| - 1];
      assert forall j :: 0 <= j < |front| ==> front[j] == es[j];
      LoopKeepsMarker(markers, page, c, front, id, message);
      LoopStep(markers, page, c, es);
    }
  }

  /** The presence test of register.js, type by type: a text box or a select
      fails when its trimmed value is empty, a check box when it is unchecked, the
      captcha when the response token is empty; a field of another type never
      fails, so it is never marked. */
  lemma PresenceByType(page: Page, e: Element)
    ensures e.fieldType.TextBox? || e.fieldType.Select? ==>
      (Fails(page, Presence, e) <==> IsBlank(page.value(e.targetId)))
    ensures e.fieldType.CheckBox? ==> (Fails(page, Presence, e) <==> e.targetId !in page.checked)
    ensures e.fieldType.Recaptcha? ==> (Fails(page, Presence, e) <==> page.captchaResponse == [])
    ensures e.fieldType.Unsupported? ==> FailureMarks(page, Presence, [e]) == []
  {
    TrimEmptyIffBlank(page.value(e.targetId));
    assert [e][..0] == [];
  }

  /** The presence test of support.js only looks at text boxes. */
  lemma TextPresenceByType(page: Page, e: Element)
    ensures Fails(page, TextPresence, e) <==> e.fieldType.TextBox? && IsBlank(page.value(e.targetId))
  {
    TrimEmptyIffBlank(page.value(e.targetId));
  }
}
