/**
 * The registration form of register.js as state transitions: the field
 * registry, the module globals `filled`, `validity` and `validDateFragments`,
 * the error markers, and what each validator, the blur handler and the submit
 * handler do to them.
 */
module RegisterRules {
  import opened JsText
  import opened EmailSyntax
  import opened DateFormat
  import opened FormValidation

  const FirstNameField := Element("firstName", TextBox, [FilledFields], "Please enter your first name.")
  const LastNameField := Element("lastName", TextBox, [FilledFields], "Please enter your last name.")
  const EmailField := Element("emailGroup_email", TextBox, [FilledFields, EmailFormat],
    "Please enter a valid email address.")
  const ConfirmedEmailField := Element("emailGroup_confirmedEmail", TextBox, [FilledFields, EmailFormat, MatchEmail],
    "Confirm email must be the same as email.")
  const YearField := Element("dob_birthYear", Select, [FilledFields, YearRange, DateCheck],
    "Please select your birth year.")
  const MonthField := Element("dob_birthMonth", Select, [FilledFields, MonthRange, DateCheck],
    "Please select your birth month.")
  const DayField := Element("dob_birthDay", Select, [FilledFields, DayRange, DateCheck],
    "Please select your birth date.")
  const IsAgreeField := Element("isAgree", CheckBox, [FilledFields],
    "Please agree with the terms and conditions of this promotional offer.")
  const CaptchaField := Element("captcha", Recaptcha, [FilledFields], "Please check the captcha checkbox.")

  const AllFields := [FirstNameField, LastNameField, EmailField, ConfirmedEmailField,
    YearField, MonthField, DayField, IsAgreeField, CaptchaField]
  const CheckForValidEmail := [EmailField, ConfirmedEmailField]
  const MatchEmailFields := [ConfirmedEmailField]
  const CheckForValidDateFields := [YearField, MonthField, DayField]

  /** The fixed message of a confirmation that differs from the email. */
  const MismatchMessage := "Confirm email must be the same as email."
  const MatchCheck := Mismatch(EmailField.targetId, MismatchMessage)

  const DateIds := {YearField.targetId, MonthField.targetId, DayField.targetId}

  /** The markers and the three globals of the script. */
  datatype State = State(markers: Markers, filled: bool, validity: bool, validDateFragments: bool)

  /** `setError(id, message)` */
  function SetError(st: State, id: string, message: string): State {
    st.(filled := false, markers := st.markers[id := message])
  }

  /** One validator loop: a `setError` call per failing element, in order. */
  function RunLoop(st: State, page: Page, c: Check, es: seq<Element>): State {
    var ms := FailureMarks(page, c, es);
    st.(markers := ApplyMarks(st.markers, ms), filled := st.filled && ms == [])
  }

  function FilledFieldsValidator(st: State, page: Page, es: seq<Element>): State {
    RunLoop(st, page, Presence, es)
  }

  /** `emailValidator` resets `validity` and clears it on every failure. */
  function EmailValidator(st: State, page: Page, es: seq<Element>): State {
    RunLoop(st, page, Syntax, es).(validity := FailureMarks(page, Syntax, es) == [])
  }

  function MatchEmailValidator(st: State, page: Page, es: seq<Element>): State {
    if st.validity then RunLoop(st, page, MatchCheck, es) else EmailValidator(st, page, es)
  }

  function ValidateEmails(st: State, page: Page, es: seq<Element>): State {
    MatchEmailValidator(EmailValidator(st, page, es), page, MatchEmailFields)
  }

  /** The year, month and day validators: a range loop that clears `validDateFragments` on failure. */
  function RangeValidator(st: State, page: Page, lo: int, hi: int, es: seq<Element>): State {
    var ms := FailureMarks(page, Range(lo, hi), es);
    RunLoop(st, page, Range(lo, hi), es).(validDateFragments := st.validDateFragments && ms == [])
  }

  function YearValidator(st: State, page: Page, es: seq<Element>): State {
    RangeValidator(st, page, 1947, 2000, es)
  }

  function MonthValidator(st: State, page: Page, es: seq<Element>): State {
    RangeValidator(st, page, 1, 12, es)
  }

  function DayValidator(st: State, page: Page, es: seq<Element>): State {
    RangeValidator(st, page, 1, 31, es)
  }

  /** `month + '/' + day + '/' + year` as the page holds it. */
  function InputDate(page: Page): string {
    page.value(MonthField.targetId) + "/" + page.value(DayField.targetId) + "/" + page.value(YearField.targetId)
  }

  /** All three date parts are non-empty strings (JavaScript truthiness). */
  predicate DatePartsGiven(page: Page) {
    page.value(DayField.targetId) != [] && page.value(MonthField.targetId) != [] && page.value(YearField.targetId) != []
  }

  /** `dateValidator`: it ignores its argument and reads the three date fields. */
  function DateValidator(st: State, page: Page): State {
    if DatePartsGiven(page) then
      if MatchesDateFormat(InputDate(page)) then st.(markers := st.markers - DateIds)
      else
        var s1 := SetError(st, DayField.targetId, DayField.errorMsg);
        var s2 := SetError(s1, MonthField.targetId, MonthField.errorMsg);
        SetError(s2, YearField.targetId, YearField.errorMsg)
    else st
  }

  /** `validateDate(elements)`: the three range checks, then the date check only
      when all three passed in this pass. */
  function ValidateDate(st: State, page: Page, es: seq<Element>): State
    requires |es| >= 3
  {
    var s3 := RangePhase(st, page, es);
    if s3.validDateFragments then DateValidator(s3, page) else s3
  }

  /** The first part of `validateDate`: reset `validDateFragments`, then the
      year, month and day checks on the three elements. */
  function RangePhase(st: State, page: Page, es: seq<Element>): State
    requires |es| >= 3
  {
    var s0 := st.(validDateFragments := true);
    var s1 := YearValidator(s0, page, [es[0]]);
    var s2 := MonthValidator(s1, page, [es[1]]);
    DayValidator(s2, page, [es[2]])
  }

  /** `window[validator]([e])` */
  function Run(st: State, page: Page, v: Validator, e: Element): State {
    match v
    case FilledFields => FilledFieldsValidator(st, page, [e])
    case EmailFormat => EmailValidator(st, page, [e])
    case MatchEmail => MatchEmailValidator(st, page, [e])
    case YearRange => YearValidator(st, page, [e])
    case MonthRange => MonthValidator(st, page, [e])
    case DayRange => DayValidator(st, page, [e])
    case DateCheck => DateValidator(st, page)
  }

  /** The validators `vs` run in order on `[e]`. */
  function RunValidators(st: State, page: Page, e: Element, vs: seq<Validator>): State
    decreases |vs|
  {
    if vs == [] then st else RunValidators(Run(st, page, vs[0], e), page, e, vs[1..])
  }

  /** The blur handler of field `e`: its own marker goes, then its validators run. */
  function Blur(st: State, page: Page, e: Element): State {
    RunValidators(st.(markers := st.markers - {e.targetId}), page, e, e.validators)
  }

  /** The submit handler; it returns the final `filled`. */
  function Submit(st: State, page: Page): State {
    var s0 := st.(filled := true);
    var s1 := FilledFieldsValidator(s0, page, AllFields);
    var s2 := ValidateEmails(s1, page, CheckForValidEmail);
    ValidateDate(s2, page, CheckForValidDateFields)
  }

  /** How the submit handler ends, once `slideToFirstError` has read the first
      marker left by the pass. */
  function SubmitCompletion(st: State, page: Page): SubmitEnd {
    var r := Submit(st, page);
    SlideThenReturn(r.markers, r.filled)
  }

  /** Everything the submit handler checks holds on the page. */
  predicate FormValid(page: Page) {
    var email, confirm := page.value(EmailField.targetId), page.value(ConfirmedEmailField.targetId);
    && (forall k :: 0 <= k < |AllFields| ==> !Fails(page, Presence, AllFields[k]))
    && IsEmail(email) && IsEmail(confirm) && email == confirm
    && !OutOfRange(page.value(YearField.targetId), 1947, 2000)
    && !OutOfRange(page.value(MonthField.targetId), 1, 12)
    && !OutOfRange(page.value(DayField.targetId), 1, 31)
    && MatchesDateFormat(InputDate(page))
  }

  // ---------------------------------------------------------------------------
  // One validator loop

  /** One step of a validator loop, as the methods of the form take it. */
  lemma RunLoopStep(st: State, page: Page, c: Check, es: seq<Element>, i: nat)
    requires i < |es|
    ensures RunLoop(st, page, c, es[..i + 1])
      == if Fails(page, c, es[i]) then SetError(RunLoop(st, page, c, es[..i]), es[i].targetId, Message(c, es[i]))
         else RunLoop(st, page, c, es[..i])
    ensures FailureMarks(page, c, es[..i + 1]) == [] <==> FailureMarks(page, c, es[..i]) == [] && !Fails(page, c, es[i])
  {
    var prefix := es[..i + 1];
    assert prefix[..i] == es[..i] && prefix[i] == es[i];
    LoopStep(st.markers, page, c, prefix);
  }

  /** One step of a range check loop: an element out of range is marked and
      clears `validDateFragments`. */
  lemma RangeValidatorStep(st: State, page: Page, lo: int, hi: int, es: seq<Element>, i: nat)
    requires i < |es|
    ensures var before := RangeValidator(st, page, lo, hi, es[..i]);
      RangeValidator(st, page, lo, hi, es[..i + 1])
        == if OutOfRange(page.value(es[i].targetId), lo, hi)
           then SetError(before, es[i].targetId, es[i].errorMsg).(validDateFragments := false)
           else before
  {
    RunLoopStep(st, page, Range(lo, hi), es, i);
  }

  /** A loop on one element: `setError` exactly when it fails. */
  lemma RunLoopSingle(st: State, page: Page, c: Check, e: Element)
    ensures RunLoop(st, page, c, [e]) == if Fails(page, c, e) then SetError(st, e.targetId, Message(c, e)) else st
  {
    SingleLoop(st.markers, page, c, e);
  }

  /** A loop leaves `filled` set exactly when it was set and every element passes. */
  lemma RunLoopFilled(st: State, page: Page, c: Check, es: seq<Element>)
    ensures RunLoop(st, page, c, es).filled <==> st.filled && forall k :: 0 <= k < |es| ==> !Fails(page, c, es[k])
  {
    NoMarksIffAllPass(page, c, es);
  }

  /** `emailValidator` ends with `validity` equal to "every element matches the
      email pattern", whatever `validity` was before, and marks exactly the
      elements whose untrimmed value the pattern rejects. */
  lemma EmailValidatorEffect(st: State, page: Page, es: seq<Element>)
    ensures var r := EmailValidator(st, page, es);
      && (r.validity <==> forall k :: 0 <= k < |es| ==> IsEmail(page.value(es[k].targetId)))
      && r.markers.Keys == st.markers.Keys + (set k | 0 <= k < |es| && !IsEmail(page.value(es[k].targetId)) :: es[k].targetId)
      && (forall id :: id in st.markers && id !in FailedIds(page, Syntax, es) ==> r.markers[id] == st.markers[id])
  {
    NoMarksIffAllPass(page, Syntax, es);
    LoopMarkers(st.markers, page, Syntax, es);
    assert FailedIds(page, Syntax, es)
      == (set k | 0 <= k < |es| && !IsEmail(page.value(es[k].targetId)) :: es[k].targetId);
  }

  /** `matchEmailValidator` on the confirmation field: after a successful
      syntax check it marks the field with the fixed message exactly when the
      two values differ; otherwise it re-runs the syntax check on the field
      alone, which sets `validity` to that field's own result. */
  lemma MatchEmailEffect(st: State, page: Page)
    ensures var r := MatchEmailValidator(st, page, MatchEmailFields);
      var email, confirm := page.value(EmailField.targetId), page.value(ConfirmedEmailField.targetId);
      var id := ConfirmedEmailField.targetId;
      && (st.validity ==> r == if email != confirm then SetError(st, id, MismatchMessage) else st)
      && (!st.validity ==>
            r == if IsEmail(confirm) then st.(validity := true)
                 else SetError(st, id, ConfirmedEmailField.errorMsg).(validity := false))
  {
    RunLoopSingle(st, page, MatchCheck, ConfirmedEmailField);
    RunLoopSingle(st, page, Syntax, ConfirmedEmailField);
    SingleLoop(st.markers, page, Syntax, ConfirmedEmailField);
  }

  /** A range validator on one element: out of range marks it and clears
      `validDateFragments`; in range (or not a number) changes nothing. */
  lemma RangeValidatorSingle(st: State, page: Page, lo: int, hi: int, e: Element)
    ensures RangeValidator(st, page, lo, hi, [e])
      == if OutOfRange(page.value(e.targetId), lo, hi)
         then SetError(st, e.targetId, e.errorMsg).(validDateFragments := false)
         else st
  {
    RunLoopSingle(st, page, Range(lo, hi), e);
    SingleLoop(st.markers, page, Range(lo, hi), e);
  }

  // ---------------------------------------------------------------------------
  // Submit

  lemma ValidateEmailsFilled(st: State, page: Page)
    ensures var email, confirm := page.value(EmailField.targetId), page.value(ConfirmedEmailField.targetId);
      var r := ValidateEmails(st, page, CheckForValidEmail);
      r.filled <==> st.filled && IsEmail(email) && IsEmail(confirm) && email == confirm
  {
    var s1 := EmailValidator(st, page, CheckForValidEmail);
    RunLoopFilled(st, page, Syntax, CheckForValidEmail);
    EmailValidatorEffect(st, page, CheckForValidEmail);
    assert CheckForValidEmail[0] == EmailField && CheckForValidEmail[1] == ConfirmedEmailField;
    MatchEmailEffect(s1, page);
  }

  /** A value inside a range that excludes 0 is not the empty string. */
  lemma InRangeIsGiven(s: string, lo: int, hi: int)
    requires 0 < lo && !OutOfRange(s, lo, hi)
    ensures s != []
  {
    if s == [] {
      BlankIsOutOfRange(s, lo, hi);
    }
  }

  /** The three date parts pass their range checks. */
  predicate DatePartsInRange(page: Page) {
    && !OutOfRange(page.value(YearField.targetId), 1947, 2000)
    && !OutOfRange(page.value(MonthField.targetId), 1, 12)
    && !OutOfRange(page.value(DayField.targetId), 1, 31)
  }

  /** `setError(id, message)` when `cond` holds. */
  function MarkIf(markers: Markers, cond: bool, id: string, message: string): Markers {
    if cond then markers[id := message] else markers
  }

  /** The range checks of a submit pass mark each date part out of range with
      its own message, and `validDateFragments` ends true exactly when all
      three are in range. */
  lemma RangePhaseEffect(st: State, page: Page)
    ensures var year, month, day := page.value(YearField.targetId), page.value(MonthField.targetId), page.value(DayField.targetId);
      var m1 := MarkIf(st.markers, OutOfRange(year, 1947, 2000), YearField.targetId, YearField.errorMsg);
      var m2 := MarkIf(m1, OutOfRange(month, 1, 12), MonthField.targetId, MonthField.errorMsg);
      var m3 := MarkIf(m2, OutOfRange(day, 1, 31), DayField.targetId, DayField.errorMsg);
      RangePhase(st, page, CheckForValidDateFields)
        == st.(markers := m3, filled := st.filled && DatePartsInRange(page),
               validDateFragments := DatePartsInRange(page))
  {
    var s0 := st.(validDateFragments := true);
    var s1 := YearValidator(s0, page, [YearField]);
    var s2 := MonthValidator(s1, page, [MonthField]);
    RangeValidatorSingle(s0, page, 1947, 2000, YearField);
    RangeValidatorSingle(s1, page, 1, 12, MonthField);
    RangeValidatorSingle(s2, page, 1, 31, DayField);
  }

  lemma ValidateDateFilled(st: State, page: Page)
    ensures ValidateDate(st, page, CheckForValidDateFields).filled
      <==> st.filled && DatePartsInRange(page) && MatchesDateFormat(InputDate(page))
  {
    RangePhaseEffect(st, page);
    if DatePartsInRange(page) {
      InRangeIsGiven(page.value(YearField.targetId), 1947, 2000);
      InRangeIsGiven(page.value(MonthField.targetId), 1, 12);
      InRangeIsGiven(page.value(DayField.targetId), 1, 31);
    }
  }

  /** The submit handler returns true exactly when the page passes every check
      of the pass: no `setError` call happened. */
  lemma SubmitPassesIffValid(st: State, page: Page)
    ensures Submit(st, page).filled <==> FormValid(page)
  {
    var s0 := st.(filled := true);
    var s1 := FilledFieldsValidator(s0, page, AllFields);
    var s2 := ValidateEmails(s1, page, CheckForValidEmail);
    RunLoopFilled(s0, page, Presence, AllFields);
    ValidateEmailsFilled(s1, page);
    ValidateDateFilled(s2, page);
  }

  /** The presence part of the submit pass, field by field. */
  lemma PresenceOfAllFields(page: Page)
    ensures (forall k :: 0 <= k < |AllFields| ==> !Fails(page, Presence, AllFields[k]))
      <==> && !IsBlank(page.value(FirstNameField.targetId))
           && !IsBlank(page.value(LastNameField.targetId))
           && !IsBlank(page.value(EmailField.targetId))
           && !IsBlank(page.value(ConfirmedEmailField.targetId))
           && !IsBlank(page.value(YearField.targetId))
           && !IsBlank(page.value(MonthField.targetId))
           && !IsBlank(page.value(DayField.targetId))
           && IsAgreeField.targetId in page.checked
           && page.captchaResponse != []
  {
    AllPassNine(page, Presence, AllFields);
    assert AllFields[0] == FirstNameField && AllFields[1] == LastNameField && AllFields[2] == EmailField;
    assert AllFields[3] == ConfirmedEmailField && AllFields[4] == YearField && AllFields[5] == MonthField;
    assert AllFields[6] == DayField && AllFields[7] == IsAgreeField && AllFields[8] == CaptchaField;
    ContactPresence(page);
    DatePresence(page);
    BoxPresence(page);
  }

  /** The four text fields pass the presence check exactly when they are not blank. */
  lemma ContactPresence(page: Page)
    ensures !Fails(page, Presence, FirstNameField) <==> !IsBlank(page.value(FirstNameField.targetId))
    ensures !Fails(page, Presence, LastNameField) <==> !IsBlank(page.value(LastNameField.targetId))
    ensures !Fails(page, Presence, EmailField) <==> !IsBlank(page.value(EmailField.targetId))
    ensures !Fails(page, Presence, ConfirmedEmailField) <==> !IsBlank(page.value(ConfirmedEmailField.targetId))
  {
    PresenceByType(page, FirstNameField);
    PresenceByType(page, LastNameField);
    PresenceByType(page, EmailField);
    PresenceByType(page, ConfirmedEmailField);
  }

  /** The agreement box passes when it is checked, the captcha when it was answered. */
  lemma BoxPresence(page: Page)
    ensures !Fails(page, Presence, IsAgreeField) <==> IsAgreeField.targetId in page.checked
    ensures !Fails(page, Presence, CaptchaField) <==> page.captchaResponse != []
  {
    PresenceByType(page, IsAgreeField);
    PresenceByType(page, CaptchaField);
  }

  /** Nine elements all pass exactly when each of them does. */
  lemma AllPassNine(page: Page, c: Check, es: seq<Element>)
    requires |es| == 9
    ensures (forall k :: 0 <= k < |es| ==> !Fails(page, c, es[k]))
      <==> && !Fails(page, c, es[0]) && !Fails(page, c, es[1]) && !Fails(page, c, es[2])
           && !Fails(page, c, es[3]) && !Fails(page, c, es[4]) && !Fails(page, c, es[5])
           && !Fails(page, c, es[6]) && !Fails(page, c, es[7]) && !Fails(page, c, es[8])
  {
    if && !Fails(page, c, es[0]) && !Fails(page, c, es[1]) && !Fails(page, c, es[2])
       && !Fails(page, c, es[3]) && !Fails(page, c, es[4]) && !Fails(page, c, es[5])
       && !Fails(page, c, es[6]) && !Fails(page, c, es[7]) && !Fails(page, c, es[8])
    {
      forall k | 0 <= k < |es| ensures !Fails(page, c, es[k]) {
        if k < 3 {
          assert k == 0 || k == 1 || k == 2;
        } else if k < 6 {
          assert k == 3 || k == 4 || k == 5;
        } else {
          assert k == 6 || k == 7 || k == 8;
        }
      }
    }
  }

  /** The three date parts pass the presence check exactly when they are not blank. */
  lemma DatePresence(page: Page)
    ensures !Fails(page, Presence, YearField) <==> !IsBlank(page.value(YearField.targetId))
    ensures !Fails(page, Presence, MonthField) <==> !IsBlank(page.value(MonthField.targetId))
    ensures !Fails(page, Presence, DayField) <==> !IsBlank(page.value(DayField.targetId))
  {
    PresenceByType(page, YearField);
    PresenceByType(page, MonthField);
    PresenceByType(page, DayField);
  }

  /** The fields other than the date of birth pass their checks. */
  predicate ContactValid(page: Page) {
    var email, confirm := page.value(EmailField.targetId), page.value(ConfirmedEmailField.targetId);
    && !IsBlank(page.value(FirstNameField.targetId))
    && !IsBlank(page.value(LastNameField.targetId))
    && IsEmail(email) && email == confirm
    && IsAgreeField.targetId in page.checked
    && page.captchaResponse != []
  }

  /** A value inside a range that excludes 0 is not blank. */
  lemma InRangeIsFilled(s: string, lo: int, hi: int)
    requires 0 < lo && !OutOfRange(s, lo, hi)
    ensures !IsBlank(s) && s != []
  {
    TrimEmptyIffBlank(s);
  }

  /** A value the email pattern accepts is not blank. */
  lemma EmailIsFilled(s: string)
    requires IsEmail(s)
    ensures !IsBlank(s)
  {
    EmailHasNoOuterSpace(s);
  }

  /** For a date of birth chosen from decimal numbers, the range checks and the
      date pattern together accept exactly the dates of the Gregorian calendar
      with a year in 1947-2000. */
  lemma DecimalDateChecks(page: Page, m: nat, d: nat, y: nat)
    requires page.value(MonthField.targetId) == Decimal(m)
    requires page.value(DayField.targetId) == Decimal(d)
    requires page.value(YearField.targetId) == Decimal(y)
    ensures (&& !OutOfRange(Decimal(y), 1947, 2000) && !OutOfRange(Decimal(m), 1, 12)
             && !OutOfRange(Decimal(d), 1, 31) && MatchesDateFormat(InputDate(page)))
      <==> 1947 <= y <= 2000 && 1 <= m <= 12 && 1 <= d <= DaysInMonth(m, y)
  {
    ToNumberDecimal(m);
    ToNumberDecimal(d);
    ToNumberDecimal(y);
    if 1947 <= y <= 2000 && 1 <= m <= 12 && 1 <= d <= 31 {
      DateFormatIsCalendar(m, d, y);
      assert InputDate(page) == DateText(m, d, y);
    }
  }

  /** With the date of birth chosen from decimal numbers, the page passes
      every check exactly when the other fields pass and the date is a date of
      the Gregorian calendar with a year in 1947-2000. */
  lemma FormValidWithDecimalDate(page: Page, m: nat, d: nat, y: nat)
    requires page.value(MonthField.targetId) == Decimal(m)
    requires page.value(DayField.targetId) == Decimal(d)
    requires page.value(YearField.targetId) == Decimal(y)
    ensures FormValid(page)
      <==> ContactValid(page) && 1947 <= y <= 2000 && 1 <= m <= 12 && 1 <= d <= DaysInMonth(m, y)
  {
    PresenceOfAllFields(page);
    DecimalDateChecks(page, m, d, y);
    var email := page.value(EmailField.targetId);
    if IsEmail(email) {
      EmailIsFilled(email);
    }
    DecimalNotBlank(m);
    DecimalNotBlank(d);
    DecimalNotBlank(y);
  }

  /** With the date of birth chosen from decimal numbers, the submit handler
      returns true exactly when the other fields pass, the year lies in
      1947-2000, and month and day form a date of the Gregorian calendar:
      February 29 passes in leap years only. */
  lemma SubmitAcceptsCalendarDates(st: State, page: Page, m: nat, d: nat, y: nat)
    requires page.value(MonthField.targetId) == Decimal(m)
    requires page.value(DayField.targetId) == Decimal(d)
    requires page.value(YearField.targetId) == Decimal(y)
    ensures Submit(st, page).filled
      <==> ContactValid(page) && 1947 <= y <= 2000 && 1 <= m <= 12 && 1 <= d <= DaysInMonth(m, y)
  {
    SubmitPassesIffValid(st, page);
    FormValidWithDecimalDate(page, m, d, y);
  }

  /** A pass in which every check holds removes the three date markers and
      leaves every other marker as it was: a marker left from an earlier blur
      survives a successful submit. */
  lemma ValidSubmitClearsOnlyDateMarkers(st: State, page: Page)
    requires FormValid(page)
    ensures Submit(st, page).filled
    ensures Submit(st, page).markers == st.markers - DateIds
  {
    SubmitPassesIffValid(st, page);
    var s0 := st.(filled := true);
    NoMarksIffAllPass(page, Presence, AllFields);
    var s1 := FilledFieldsValidator(s0, page, AllFields);
    assert s1.markers == st.markers;
    NoMarksIffAllPass(page, Syntax, CheckForValidEmail);
    var e1 := EmailValidator(s1, page, CheckForValidEmail);
    assert e1.markers == st.markers && e1.validity;
    MatchEmailEffect(e1, page);
    var s2 := ValidateEmails(s1, page, CheckForValidEmail);
    assert s2.markers == st.markers;
    RangePhaseEffect(s2, page);
    InRangeIsFilled(page.value(YearField.targetId), 1947, 2000);
    InRangeIsFilled(page.value(MonthField.targetId), 1, 12);
    InRangeIsFilled(page.value(DayField.targetId), 1, 31);
  }

  /** A pass that fails some check leaves a marker on the page. */
  lemma InvalidSubmitLeavesMarker(st: State, page: Page)
    requires !FormValid(page)
    ensures Submit(st, page).markers != map[]
  {
    var s0 := st.(filled := true);
    var s1 := FilledFieldsValidator(s0, page, AllFields);
    var s2 := ValidateEmails(s1, page, CheckForValidEmail);
    var email, confirm := page.value(EmailField.targetId), page.value(ConfirmedEmailField.targetId);
    if !(forall k :: 0 <= k < |AllFields| ==> !Fails(page, Presence, AllFields[k])) {
      var k :| 0 <= k < |AllFields| && Fails(page, Presence, AllFields[k]);
      SubmitMarksMissingFields(st, page, k);
    } else if !(IsEmail(email) && IsEmail(confirm) && email == confirm) {
      EmailStageMarks(s1, page);
      OutsideDateIds(2);
      OutsideDateIds(3);
      if EmailField.targetId in s2.markers {
        DateStageKeeps(s2, page, EmailField.targetId);
      } else {
        DateStageKeeps(s2, page, ConfirmedEmailField.targetId);
      }
    } else {
      DateStageMarks(s2, page);
    }
  }

  /** Failing email checks mark one of the two email fields. */
  lemma EmailStageMarks(s1: State, page: Page)
    requires var email, confirm := page.value(EmailField.targetId), page.value(ConfirmedEmailField.targetId);
      !(IsEmail(email) && IsEmail(confirm) && email == confirm)
    ensures var r := ValidateEmails(s1, page, CheckForValidEmail).markers;
      EmailField.targetId in r || ConfirmedEmailField.targetId in r
  {
    var e1 := EmailValidator(s1, page, CheckForValidEmail);
    EmailValidatorEffect(s1, page, CheckForValidEmail);
    assert CheckForValidEmail[0] == EmailField && CheckForValidEmail[1] == ConfirmedEmailField;
    MatchEmailEffect(e1, page);
    if !IsEmail(page.value(EmailField.targetId)) {
      assert EmailField.targetId in e1.markers;
    } else if !IsEmail(page.value(ConfirmedEmailField.targetId)) {
      assert ConfirmedEmailField.targetId in e1.markers;
    }
  }

  /** The date checks keep every marker outside the three date fields. */
  lemma DateStageKeeps(s2: State, page: Page, id: string)
    requires id !in DateIds && id in s2.markers
    ensures id in ValidateDate(s2, page, CheckForValidDateFields).markers
  {
    RangePhaseEffect(s2, page);
    DateValidatorOutside(RangePhase(s2, page, CheckForValidDateFields), page, id);
  }

  /** Failing date checks leave a marker on a date field. */
  lemma DateStageMarks(s2: State, page: Page)
    requires !(DatePartsInRange(page) && MatchesDateFormat(InputDate(page)))
    ensures ValidateDate(s2, page, CheckForValidDateFields).markers != map[]
  {
    RangePhaseEffect(s2, page);
    var s3 := RangePhase(s2, page, CheckForValidDateFields);
    if DatePartsInRange(page) {
      InRangeIsGiven(page.value(YearField.targetId), 1947, 2000);
      InRangeIsGiven(page.value(MonthField.targetId), 1, 12);
      InRangeIsGiven(page.value(DayField.targetId), 1, 31);
      assert YearField.targetId in DateValidator(s3, page).markers;
    } else if OutOfRange(page.value(DayField.targetId), 1, 31) {
      assert DayField.targetId in s3.markers;
    } else if OutOfRange(page.value(MonthField.targetId), 1, 12) {
      assert MonthField.targetId in s3.markers;
    } else {
      assert YearField.targetId in s3.markers;
    }
  }

  /** The form goes to the server exactly when the page passes every check.
      The handler throws, instead of returning true, exactly when the pass is
      valid and no marker outside the date fields was left from an earlier
      blur; either way the browser submits. */
  lemma SubmitCompletes(st: State, page: Page)
    ensures Submits(SubmitCompletion(st, page)) <==> FormValid(page)
    ensures SubmitCompletion(st, page) == Threw <==> FormValid(page) && st.markers - DateIds == map[]
  {
    SubmitPassesIffValid(st, page);
    if FormValid(page) {
      ValidSubmitClearsOnlyDateMarkers(st, page);
    } else {
      InvalidSubmitLeavesMarker(st, page);
    }
  }

  /** The registered fields have distinct ids. */
  lemma AllFieldsDistinct(i: nat, j: nat)
    requires i < j < |AllFields|
    ensures AllFields[i].targetId != AllFields[j].targetId
  {
  }

  /** A marker `id -> msg` that is a registered field's own survives the email checks. */
  lemma EmailsKeepOwnMarker(s1: State, page: Page, k: nat)
    requires k < |AllFields|
    requires var e := AllFields[k]; e.targetId in s1.markers && s1.markers[e.targetId] == e.errorMsg
    ensures var e, r := AllFields[k], ValidateEmails(s1, page, CheckForValidEmail);
      e.targetId in r.markers && r.markers[e.targetId] == e.errorMsg
  {
    var id, msg := AllFields[k].targetId, AllFields[k].errorMsg;
    var e1 := EmailValidator(s1, page, CheckForValidEmail);
    LoopKeepsMarker(s1.markers, page, Syntax, CheckForValidEmail, id, msg);
    // the mismatch message is the confirmation field's own message
    if e1.validity {
      LoopKeepsMarker(e1.markers, page, MatchCheck, MatchEmailFields, id, msg);
    } else {
      LoopKeepsMarker(e1.markers, page, Syntax, MatchEmailFields, id, msg);
    }
  }

  /** A field's own marker survives the date checks when the field fails its
      presence check: a blank date part is out of range, so the date pattern,
      which alone removes markers, does not run. */
  lemma DateKeepsOwnMarker(s2: State, page: Page, k: nat)
    requires k < |AllFields| && Fails(page, Presence, AllFields[k])
    requires var e := AllFields[k]; e.targetId in s2.markers && s2.markers[e.targetId] == e.errorMsg
    ensures var e, r := AllFields[k], ValidateDate(s2, page, CheckForValidDateFields);
      e.targetId in r.markers && r.markers[e.targetId] == e.errorMsg
  {
    var e := AllFields[k];
    RangePhaseEffect(s2, page);
    var s3 := RangePhase(s2, page, CheckForValidDateFields);
    if DatePartsInRange(page) {
      DatePartsPresent(page);
      assert k != 4 && k != 5 && k != 6;
      OutsideDateIds(k);
      DateValidatorOutside(s3, page, e.targetId);
    } else {
      assert ValidateDate(s2, page, CheckForValidDateFields) == s3;
      DatePresence(page);
      if k == 4 {
        BlankIsOutOfRange(page.value(YearField.targetId), 1947, 2000);
      } else if k == 5 {
        BlankIsOutOfRange(page.value(MonthField.targetId), 1, 12);
      } else if k == 6 {
        BlankIsOutOfRange(page.value(DayField.targetId), 1, 31);
      } else {
        OutsideDateIds(k);
      }
    }
  }

  /** The registered fields other than the date parts have ids outside `DateIds`. */
  lemma OutsideDateIds(k: nat)
    requires k < |AllFields| && k != 4 && k != 5 && k != 6
    ensures AllFields[k].targetId !in DateIds
  {
    if k < 4 {
      assert AllFields[k] in AllFields[..4];
    } else {
      assert AllFields[k] in AllFields[7..];
    }
  }

  /** Date parts in range pass the presence check. */
  lemma DatePartsPresent(page: Page)
    requires DatePartsInRange(page)
    ensures !Fails(page, Presence, YearField) && !Fails(page, Presence, MonthField) && !Fails(page, Presence, DayField)
  {
    InRangeIsFilled(page.value(YearField.targetId), 1947, 2000);
    InRangeIsFilled(page.value(MonthField.targetId), 1, 12);
    InRangeIsFilled(page.value(DayField.targetId), 1, 31);
    DatePresence(page);
  }

  /** The date check leaves the markers of the other fields alone. */
  lemma DateValidatorOutside(st: State, page: Page, id: string)
    requires id !in DateIds
    ensures var r := DateValidator(st, page).markers;
      (id in r <==> id in st.markers) && (id in r ==> r[id] == st.markers[id])
  {
  }

  /** Every registered field that fails its presence check is marked after the
      submit pass, with its own message. */
  lemma SubmitMarksMissingFields(st: State, page: Page, k: nat)
    requires k < |AllFields| && Fails(page, Presence, AllFields[k])
    ensures var r := Submit(st, page); var e := AllFields[k];
      e.targetId in r.markers && r.markers[e.targetId] == e.errorMsg
  {
    var s0 := st.(filled := true);
    var s1 := FilledFieldsValidator(s0, page, AllFields);
    forall j | k < j < |AllFields| ensures AllFields[j].targetId != AllFields[k].targetId {
      AllFieldsDistinct(k, j);
    }
    LoopLastWriter(s0.markers, page, Presence, AllFields, k);
    EmailsKeepOwnMarker(s1, page, k);
    DateKeepsOwnMarker(ValidateEmails(s1, page, CheckForValidEmail), page, k);
  }

  // ---------------------------------------------------------------------------
  // Blur

  lemma RunValidatorsOne(st: State, page: Page, e: Element, a: Validator)
    ensures RunValidators(st, page, e, [a]) == Run(st, page, a, e)
  {
    assert [a][1..] == [];
  }

  lemma RunValidatorsTwo(st: State, page: Page, e: Element, a: Validator, b: Validator)
    ensures RunValidators(st, page, e, [a, b]) == Run(Run(st, page, a, e), page, b, e)
  {
    assert [a, b][1..] == [b];
    RunValidatorsOne(Run(st, page, a, e), page, e, b);
  }

  lemma RunValidatorsThree(st: State, page: Page, e: Element, a: Validator, b: Validator, c: Validator)
    ensures RunValidators(st, page, e, [a, b, c]) == Run(Run(Run(st, page, a, e), page, b, e), page, c, e)
  {
    assert [a, b, c][1..] == [b, c];
    RunValidatorsTwo(Run(st, page, a, e), page, e, b, c);
  }

  /** The ids whose markers blurring `e` may change: its own, and the three date
      fields when `e` runs the date check. */
  function Touched(e: Element): set<string> {
    {e.targetId} + (if DateCheck in e.validators then DateIds else {})
  }

  /** A marker written inside `T` changes nothing outside it. */
  lemma UpdateInside(m: Markers, id: string, message: string, T: set<string>)
    requires id in T
    ensures m[id := message] - T == m - T
  {
    assert (m[id := message] - T).Keys == (m - T).Keys;
  }

  lemma LoopSingleFrame(st: State, page: Page, c: Check, e: Element, T: set<string>)
    requires e.targetId in T
    ensures RunLoop(st, page, c, [e]).markers - T == st.markers - T
  {
    RunLoopSingle(st, page, c, e);
    UpdateInside(st.markers, e.targetId, Message(c, e), T);
  }

  lemma DateValidatorFrame(st: State, page: Page, T: set<string>)
    requires DateIds <= T
    ensures DateValidator(st, page).markers - T == st.markers - T
  {
    var m1 := st.markers[DayField.targetId := DayField.errorMsg];
    var m2 := m1[MonthField.targetId := MonthField.errorMsg];
    UpdateInside(st.markers, DayField.targetId, DayField.errorMsg, T);
    UpdateInside(m1, MonthField.targetId, MonthField.errorMsg, T);
    UpdateInside(m2, YearField.targetId, YearField.errorMsg, T);
    assert (st.markers - DateIds) - T == st.markers - T;
  }

  /** One validator on `[e]` changes no marker outside `T`. */
  lemma RunFrame(st: State, page: Page, v: Validator, e: Element, T: set<string>)
    requires e.targetId in T && (v == DateCheck ==> DateIds <= T)
    ensures Run(st, page, v, e).markers - T == st.markers - T
  {
    match v
    case FilledFields => LoopSingleFrame(st, page, Presence, e, T);
    case EmailFormat => LoopSingleFrame(st, page, Syntax, e, T);
    case MatchEmail =>
      LoopSingleFrame(st, page, MatchCheck, e, T);
      LoopSingleFrame(st, page, Syntax, e, T);
    case YearRange => LoopSingleFrame(st, page, Range(1947, 2000), e, T);
    case MonthRange => LoopSingleFrame(st, page, Range(1, 12), e, T);
    case DayRange => LoopSingleFrame(st, page, Range(1, 31), e, T);
    case DateCheck => DateValidatorFrame(st, page, T);
  }

  lemma {:induction false} RunValidatorsFrame(st: State, page: Page, e: Element, vs: seq<Validator>, T: set<string>)
    requires e.targetId in T && (DateCheck in vs ==> DateIds <= T)
    ensures RunValidators(st, page, e, vs).markers - T == st.markers - T
    decreases |vs|
  {
    if vs != [] {
      RunFrame(st, page, vs[0], e, T);
      assert DateCheck in vs[1..] ==> DateCheck in vs;
      RunValidatorsFrame(Run(st, page, vs[0], e), page, e, vs[1..], T);
    }
  }

  /** Blurring a field changes only its own marker, and for a date field the
      markers of the three date fields. */
  lemma BlurFrame(st: State, page: Page, e: Element)
    ensures Blur(st, page, e).markers - Touched(e) == st.markers - Touched(e)
  {
    var T := Touched(e);
    RunValidatorsFrame(st.(markers := st.markers - {e.targetId}), page, e, e.validators, T);
  }

  /** Blurring a field that only has the presence check: its marker is set with
      its own message when it fails and removed when it passes. */
  lemma BlurPresenceOnly(st: State, page: Page, e: Element)
    requires e.validators == [FilledFields]
    ensures var r := Blur(st, page, e);
      && r.markers == (if Fails(page, Presence, e) then st.markers[e.targetId := e.errorMsg]
                       else st.markers - {e.targetId})
      && r.filled == (st.filled && !Fails(page, Presence, e))
  {
    var s0 := st.(markers := st.markers - {e.targetId});
    RunValidatorsOne(s0, page, e, FilledFields);
    RunLoopSingle(s0, page, Presence, e);
  }

  /** On a text box, the presence check followed by the syntax check marks the
      field exactly when the pattern rejects its untrimmed value: a blank value
      is rejected too, so the presence check adds nothing. */
  lemma PresenceThenSyntax(s0: State, page: Page, e: Element)
    requires e.fieldType == TextBox
    ensures var s2, v := Run(Run(s0, page, FilledFields, e), page, EmailFormat, e), page.value(e.targetId);
      && s2.markers == (if !IsEmail(v) then s0.markers[e.targetId := e.errorMsg] else s0.markers)
      && s2.validity == IsEmail(v)
      && s2.filled == (s0.filled && IsEmail(v))
  {
    var v := page.value(e.targetId);
    RunLoopSingle(s0, page, Presence, e);
    var s1 := Run(s0, page, FilledFields, e);
    RunLoopSingle(s1, page, Syntax, e);
    SingleLoop(s1.markers, page, Syntax, e);
    if IsEmail(v) {
      EmailIsFilled(v);
      PresenceByType(page, e);
      assert s1 == s0;
    } else {
      assert s1.markers == s0.markers || s1.markers == s0.markers[e.targetId := e.errorMsg];
    }
  }

  /** Blurring the email field marks it exactly when the pattern rejects its
      untrimmed value (a blank value is rejected too), removes its marker
      otherwise, and leaves `validity` equal to the pattern's verdict. */
  lemma BlurEmail(st: State, page: Page)
    ensures var r, v := Blur(st, page, EmailField), page.value(EmailField.targetId);
      && r.markers == (if !IsEmail(v) then st.markers[EmailField.targetId := EmailField.errorMsg]
                       else st.markers - {EmailField.targetId})
      && r.validity == IsEmail(v)
  {
    var e := EmailField;
    var s0 := st.(markers := st.markers - {e.targetId});
    RunValidatorsTwo(s0, page, e, FilledFields, EmailFormat);
    PresenceThenSyntax(s0, page, e);
  }

  /** Blurring the confirmation field marks it exactly when the pattern rejects
      its value or it differs from the email (both messages are the same
      text), and removes its marker otherwise. */
  lemma BlurConfirmedEmail(st: State, page: Page)
    ensures var r := Blur(st, page, ConfirmedEmailField);
      var email, confirm := page.value(EmailField.targetId), page.value(ConfirmedEmailField.targetId);
      var id := ConfirmedEmailField.targetId;
      r.markers == (if !IsEmail(confirm) || email != confirm then st.markers[id := ConfirmedEmailField.errorMsg]
                    else st.markers - {id})
  {
    var e := ConfirmedEmailField;
    var s0 := st.(markers := st.markers - {e.targetId});
    RunValidatorsThree(s0, page, e, FilledFields, EmailFormat, MatchEmail);
    PresenceThenSyntax(s0, page, e);
    var s2 := Run(Run(s0, page, FilledFields, e), page, EmailFormat, e);
    ConfirmationMatch(st, s2, page);
  }

  /** The last step of a blur of the confirmation field: the match check after
      the syntax check. */
  lemma ConfirmationMatch(st: State, s2: State, page: Page)
    requires var id := ConfirmedEmailField.targetId; var confirm := page.value(id);
      && s2.validity == IsEmail(confirm)
      && s2.markers == (if IsEmail(confirm) then st.markers - {id} else (st.markers - {id})[id := ConfirmedEmailField.errorMsg])
    ensures var r := Run(s2, page, MatchEmail, ConfirmedEmailField);
      var email, confirm := page.value(EmailField.targetId), page.value(ConfirmedEmailField.targetId);
      var id := ConfirmedEmailField.targetId;
      r.markers == (if !IsEmail(confirm) || email != confirm then st.markers[id := ConfirmedEmailField.errorMsg]
                    else st.markers - {id})
  {
    var e := ConfirmedEmailField;
    var id, msg := e.targetId, e.errorMsg;
    assert MatchEmailFields == [e];
    MatchEmailEffect(s2, page);
    assert MismatchMessage == msg;
    RemoveThenSet(st.markers, id, msg);
  }


  /** The markers the date check writes when the date is rejected. */
  const DateMarks: Markers := map[DayField.targetId := DayField.errorMsg,
    MonthField.targetId := MonthField.errorMsg, YearField.targetId := YearField.errorMsg]

  /** What the date check does to markers that differ from `base` at most at one
      date id: a matching date leaves `base` without the date markers, a
      rejected one `base` with all three. */
  lemma DateValidatorOver(s: State, page: Page, base: Markers, id: string)
    requires id in DateIds && s.markers - {id} == base - {id}
    requires DatePartsGiven(page)
    ensures MatchesDateFormat(InputDate(page)) ==> DateValidator(s, page).markers == base - DateIds
    ensures !MatchesDateFormat(InputDate(page)) ==> DateValidator(s, page).markers == base + DateMarks
  {
    if MatchesDateFormat(InputDate(page)) {
      assert DateValidator(s, page).markers == s.markers - DateIds;
      ClearOver(s.markers, base, id);
    } else {
      var m1 := SetError(s, DayField.targetId, DayField.errorMsg);
      var m2 := SetError(m1, MonthField.targetId, MonthField.errorMsg);
      assert DateValidator(s, page) == SetError(m2, YearField.targetId, YearField.errorMsg);
      MarkOver(s.markers, base, id);
    }
  }

  /** Removing the date markers forgets a difference at one date id. */
  lemma ClearOver(m: Markers, base: Markers, id: string)
    requires id in DateIds && m - {id} == base - {id}
    ensures m - DateIds == base - DateIds
  {
    forall x | x !in DateIds
      ensures (x in m <==> x in base) && (x in base ==> m[x] == base[x])
    {
      assert x in m - {id} <==> x in base - {id};
    }
    assert (m - DateIds).Keys == (base - DateIds).Keys;
  }

  /** Writing the three date markers overwrites a difference at one date id. */
  lemma MarkOver(m: Markers, base: Markers, id: string)
    requires id in DateIds && m - {id} == base - {id}
    ensures m[DayField.targetId := DayField.errorMsg][MonthField.targetId := MonthField.errorMsg]
             [YearField.targetId := YearField.errorMsg] == base + DateMarks
  {
    var m3 := m[DayField.targetId := DayField.errorMsg][MonthField.targetId := MonthField.errorMsg]
               [YearField.targetId := YearField.errorMsg];
    forall x | x !in DateIds
      ensures (x in m <==> x in base) && (x in base ==> m[x] == base[x])
    {
      assert x in m - {id} <==> x in base - {id};
    }
    assert m3.Keys == (base + DateMarks).Keys;
  }

  /** The first two validators of a date field's blur change at most its own marker. */
  lemma DateBlurBeforeCheck(st: State, page: Page, k: nat)
    requires 4 <= k < 7
    ensures var e := AllFields[k];
      var s0 := st.(markers := st.markers - {e.targetId});
      var s2 := Run(Run(s0, page, FilledFields, e), page, e.validators[1], e);
      && Blur(st, page, e) == DateValidator(s2, page)
      && s2.markers - {e.targetId} == st.markers - {e.targetId}
  {
    var e := AllFields[k];
    var id := e.targetId;
    var s0 := st.(markers := st.markers - {id});
    var range := e.validators[1];
    assert e.validators == [FilledFields, range, DateCheck];
    RunValidatorsThree(s0, page, e, FilledFields, range, DateCheck);
    var s1 := Run(s0, page, FilledFields, e);
    RunFrame(s0, page, FilledFields, e, {id});
    RunFrame(s1, page, range, e, {id});
  }

  /** Decimal date parts are given, and they match the date pattern exactly on
      the dates of the Gregorian calendar. */
  lemma DecimalDateMatches(page: Page, m: nat, d: nat, y: nat)
    requires page.value(MonthField.targetId) == Decimal(m)
    requires page.value(DayField.targetId) == Decimal(d)
    requires page.value(YearField.targetId) == Decimal(y)
    requires 1 <= m <= 12 && 1 <= d <= 31 && 1600 <= y <= 9999
    ensures DatePartsGiven(page)
    ensures MatchesDateFormat(InputDate(page)) <==> d <= DaysInMonth(m, y)
  {
    DecimalDigits(m);
    DecimalDigits(d);
    DecimalDigits(y);
    DateFormatIsCalendar(m, d, y);
    assert InputDate(page) == DateText(m, d, y);
  }

  /** Blurring a date field whose three parts are decimal numbers runs the date
      check without the range gate: a date of the Gregorian calendar clears all
      three date markers, even a year outside 1947-2000 whose range check has
      just marked it, and any other date marks all three. */
  lemma BlurDateField(st: State, page: Page, k: nat, m: nat, d: nat, y: nat)
    requires 4 <= k < 7
    requires page.value(MonthField.targetId) == Decimal(m)
    requires page.value(DayField.targetId) == Decimal(d)
    requires page.value(YearField.targetId) == Decimal(y)
    requires 1 <= m <= 12 && 1 <= d <= 31 && 1600 <= y <= 9999
    ensures var r := Blur(st, page, AllFields[k]);
      && (d <= DaysInMonth(m, y) ==> r.markers == st.markers - DateIds)
      && (d > DaysInMonth(m, y) ==> r.markers == st.markers + DateMarks)
  {
    var e := AllFields[k];
    var s0 := st.(markers := st.markers - {e.targetId});
    var s2 := Run(Run(s0, page, FilledFields, e), page, e.validators[1], e);
    DateBlurBeforeCheck(st, page, k);
    DecimalDateMatches(page, m, d, y);
    DateValidatorOver(s2, page, st.markers, e.targetId);
  }

  /** Blurring the year of a calendar date whose year lies outside 1947-2000
      (5/5/1930, say) leaves no year marker, although the year's range check
      marks it during that blur. */
  lemma BlurClearsOutOfRangeYear(st: State, page: Page, m: nat, d: nat, y: nat)
    requires page.value(MonthField.targetId) == Decimal(m)
    requires page.value(DayField.targetId) == Decimal(d)
    requires page.value(YearField.targetId) == Decimal(y)
    requires 1 <= m <= 12 && 1 <= d <= DaysInMonth(m, y) && 1600 <= y <= 9999 && (y < 1947 || y > 2000)
    ensures OutOfRange(page.value(YearField.targetId), 1947, 2000)
    ensures YearField.targetId !in Blur(st, page, YearField).markers
  {
    ToNumberDecimal(y);
    BlurDateField(st, page, 4, m, d, y);
  }

  /** A blank date part has no digit, so the joined date does not match. */
  lemma BlankPartRejects(page: Page, id: string)
    requires id in DateIds && page.value(id) != [] && IsBlank(page.value(id))
    ensures !MatchesDateFormat(InputDate(page))
  {
    var s := InputDate(page);
    var v := page.value(id);
    var mo, da := page.value(MonthField.targetId), page.value(DayField.targetId);
    var at := if id == MonthField.targetId then 0
              else if id == DayField.targetId then |mo| + 1
              else |mo| + 1 + |da| + 1;
    assert s[at] == v[0];
    if MatchesDateFormat(s) {
      DateFormatChars(s);
    }
  }

  /** Blurring a blank date field marks it with its own message. */
  lemma BlurBlankDateField(st: State, page: Page, k: nat)
    requires 4 <= k < 7 && IsBlank(page.value(AllFields[k].targetId))
    ensures var r, e := Blur(st, page, AllFields[k]), AllFields[k];
      e.targetId in r.markers && r.markers[e.targetId] == e.errorMsg
  {
    var e := AllFields[k];
    var s0 := st.(markers := st.markers - {e.targetId});
    var s1 := Run(s0, page, FilledFields, e);
    var s2 := Run(s1, page, e.validators[1], e);
    DateBlurBeforeCheck(st, page, k);
    BlankPartMarked(s1, page, k);
    DateCheckKeepsDateMarker(s2, page, k);
  }

  /** The range check of a date part marks a blank value with the part's own message. */
  lemma BlankPartMarked(s1: State, page: Page, k: nat)
    requires 4 <= k < 7 && IsBlank(page.value(AllFields[k].targetId))
    ensures var e := AllFields[k]; var r := Run(s1, page, e.validators[1], e);
      e.targetId in r.markers && r.markers[e.targetId] == e.errorMsg
  {
    if k == 4 {
      RangeMarksBlank(s1, page, YearField, 1947, 2000);
    } else if k == 5 {
      RangeMarksBlank(s1, page, MonthField, 1, 12);
    } else {
      RangeMarksBlank(s1, page, DayField, 1, 31);
    }
  }

  /** A range check that excludes 0 marks a blank value with the element's own message. */
  lemma RangeMarksBlank(s1: State, page: Page, e: Element, lo: int, hi: int)
    requires IsBlank(page.value(e.targetId)) && 0 < lo
    ensures var r := RangeValidator(s1, page, lo, hi, [e]);
      e.targetId in r.markers && r.markers[e.targetId] == e.errorMsg
  {
    BlankIsOutOfRange(page.value(e.targetId), lo, hi);
    RangeValidatorSingle(s1, page, lo, hi, e);
  }

  /** The date check keeps a blank date part's own marker: it either does not
      run, or it rejects the date and writes the part's own message again. */
  lemma DateCheckKeepsDateMarker(s2: State, page: Page, k: nat)
    requires 4 <= k < 7 && IsBlank(page.value(AllFields[k].targetId))
    requires var e := AllFields[k]; e.targetId in s2.markers && s2.markers[e.targetId] == e.errorMsg
    ensures var e, r := AllFields[k], DateValidator(s2, page);
      e.targetId in r.markers && r.markers[e.targetId] == e.errorMsg
  {
    var id := AllFields[k].targetId;
    if DatePartsGiven(page) {
      BlankPartRejects(page, id);
    }
  }
}
