/**
 * register.js as the script runs it: the module globals and the markers on the
 * page are the fields of a `RegisterForm`, and each validator, the blur handler
 * and the submit handler is a method that updates them step by step, in the
 * order of the script's `forEach` loops. Each method is tied to its
 * state transition in RegisterRules, where the properties are proved.
 */
module Register {
  import opened JsText
  import opened EmailSyntax
  import opened DateFormat
  import opened FormValidation
  import R = RegisterRules

  class RegisterForm {
    var markers: Markers
    var filled: bool
    var validity: bool
    var validDateFragments: bool

    /** The abstract state of the form. */
    function Snapshot(): R.State
      reads this
    {
      R.State(markers, filled, validity, validDateFragments)
    }

    /** The page as loaded: no markers and the three globals at their initial `true`. */
    constructor ()
      ensures Snapshot() == R.State(map[], true, true, true)
    {
      markers := map[];
      filled := true;
      validity := true;
      validDateFragments := true;
    }

    method SetError(id: string, message: string)
      modifies this
      ensures Snapshot() == R.SetError(old(Snapshot()), id, message)
    {
      filled := false;
      markers := markers - {id};
      markers := markers[id := message];
    }

    method FilledFieldsValidator(page: Page, es: seq<Element>)
      modifies this
      ensures Snapshot() == R.FilledFieldsValidator(old(Snapshot()), page, es)
    {
      ghost var st := Snapshot();
      for i := 0 to |es|
        invariant Snapshot() == R.RunLoop(st, page, Presence, es[..i])
      {
        var e := es[i];
        R.RunLoopStep(st, page, Presence, es, i);
        match e.fieldType
        case TextBox =>
          if Trim(page.value(e.targetId)) == [] {
            SetError(e.targetId, e.errorMsg);
          }
        case Select =>
          if Trim(page.value(e.targetId)) == [] {
            SetError(e.targetId, e.errorMsg);
          }
        case CheckBox =>
          if e.targetId !in page.checked {
            SetError(e.targetId, e.errorMsg);
          }
        case Recaptcha =>
          if page.captchaResponse == [] {
            SetError(e.targetId, e.errorMsg);
          }
        case Unsupported(_) =>
          // "Validation not Supported" goes to the console
      }
      assert es[..|es|] == es;
    }

    method EmailValidator(page: Page, es: seq<Element>)
      modifies this
      ensures Snapshot() == R.EmailValidator(old(Snapshot()), page, es)
    {
      validity := true;
      ghost var st := Snapshot();
      for i := 0 to |es|
        invariant Snapshot() == R.RunLoop(st, page, Syntax, es[..i]).(validity := FailureMarks(page, Syntax, es[..i]) == [])
      {
        R.RunLoopStep(st, page, Syntax, es, i);
        var email := page.value(es[i].targetId);
        if !IsEmail(email) {
          SetError(es[i].targetId, es[i].errorMsg);
          validity := false;
        }
      }
      assert es[..|es|] == es;
    }

    method MatchEmailValidator(page: Page, es: seq<Element>)
      modifies this
      ensures Snapshot() == R.MatchEmailValidator(old(Snapshot()), page, es)
    {
      if validity {
        ghost var st := Snapshot();
        for i := 0 to |es|
          invariant Snapshot() == R.RunLoop(st, page, R.MatchCheck, es[..i])
        {
          R.RunLoopStep(st, page, R.MatchCheck, es, i);
          var email := page.value(R.EmailField.targetId);
          var confirmEmail := page.value(es[i].targetId);
          if email != confirmEmail {
            SetError(es[i].targetId, R.MismatchMessage);
          }
        }
        assert es[..|es|] == es;
      } else {
        EmailValidator(page, es);
      }
    }

    method ValidateEmails(page: Page, es: seq<Element>)
      modifies this
      ensures Snapshot() == R.ValidateEmails(old(Snapshot()), page, es)
    {
      EmailValidator(page, es);
      MatchEmailValidator(page, R.MatchEmailFields);
    }

    /** The loop shared by `yearValidator`, `monthValidator` and `dayValidator`. */
    method RangeValidator(page: Page, lo: int, hi: int, es: seq<Element>)
      modifies this
      ensures Snapshot() == R.RangeValidator(old(Snapshot()), page, lo, hi, es)
    {
      ghost var st := Snapshot();
      for i := 0 to |es|
        invariant Snapshot() == R.RangeValidator(st, page, lo, hi, es[..i])
      {
        R.RangeValidatorStep(st, page, lo, hi, es, i);
        var v := page.value(es[i].targetId);
        if OutOfRange(v, lo, hi) {
          validDateFragments := false;
          SetError(es[i].targetId, es[i].errorMsg);
        }
      }
      assert es[..|es|] == es;
    }

    method YearValidator(page: Page, es: seq<Element>)
      modifies this
      ensures Snapshot() == R.YearValidator(old(Snapshot()), page, es)
    {
      RangeValidator(page, 1947, 2000, es);
    }

    method MonthValidator(page: Page, es: seq<Element>)
      modifies this
      ensures Snapshot() == R.MonthValidator(old(Snapshot()), page, es)
    {
      RangeValidator(page, 1, 12, es);
    }

    method DayValidator(page: Page, es: seq<Element>)
      modifies this
      ensures Snapshot() == R.DayValidator(old(Snapshot()), page, es)
    {
      RangeValidator(page, 1, 31, es);
    }

    method DateValidator(page: Page)
      modifies this
      ensures Snapshot() == R.DateValidator(old(Snapshot()), page)
    {
      var day := page.value(R.DayField.targetId);
      var month := page.value(R.MonthField.targetId);
      var year := page.value(R.YearField.targetId);
      var inputDate := month + "/" + day + "/" + year;
      if day != [] && month != [] && year != [] && !MatchesDateFormat(inputDate) {
        SetError(R.DayField.targetId, R.DayField.errorMsg);
        SetError(R.MonthField.targetId, R.MonthField.errorMsg);
        SetError(R.YearField.targetId, R.YearField.errorMsg);
      } else if day != [] && month != [] && year != [] && MatchesDateFormat(inputDate) {
        ghost var before := markers;
        markers := markers - {R.DayField.targetId};
        markers := markers - {R.MonthField.targetId};
        markers := markers - {R.YearField.targetId};
        assert markers == before - R.DateIds;
      }
    }

    method ValidateDate(page: Page, es: seq<Element>)
      requires |es| >= 3
      modifies this
      ensures Snapshot() == R.ValidateDate(old(Snapshot()), page, es)
    {
      validDateFragments := true;
      YearValidator(page, [es[0]]);
      MonthValidator(page, [es[1]]);
      DayValidator(page, [es[2]]);
      if validDateFragments {
        DateValidator(page);
      }
    }

    /** `window[validator]([e])` */
    method Run(page: Page, v: Validator, e: Element)
      modifies this
      ensures Snapshot() == R.Run(old(Snapshot()), page, v, e)
    {
      match v
      case FilledFields => FilledFieldsValidator(page, [e]);
      case EmailFormat => EmailValidator(page, [e]);
      case MatchEmail => MatchEmailValidator(page, [e]);
      case YearRange => YearValidator(page, [e]);
      case MonthRange => MonthValidator(page, [e]);
      case DayRange => DayValidator(page, [e]);
      case DateCheck => DateValidator(page);
    }

    /** The blur handler bound to field `e`. */
    method Blur(page: Page, e: Element)
      modifies this
      ensures Snapshot() == R.Blur(old(Snapshot()), page, e)
    {
      markers := markers - {e.targetId};
      ghost var st := Snapshot();
      var validators := e.validators;
      for i := 0 to |validators|
        invariant R.RunValidators(Snapshot(), page, e, validators[i..]) == R.RunValidators(st, page, e, validators)
      {
        assert validators[i..][0] == validators[i] && validators[i..][1..] == validators[i + 1..];
        Run(page, validators[i], e);
      }
    }

    /** The submit handler; `end` is how it ends, and the form is submitted
        unless it returned false. */
    method Submit(page: Page) returns (end: SubmitEnd)
      modifies this
      ensures Snapshot() == R.Submit(old(Snapshot()), page)
      ensures end == R.SubmitCompletion(old(Snapshot()), page)
      ensures Submits(end) <==> R.FormValid(page)
      ensures end == Threw <==> R.FormValid(page) && old(markers) - R.DateIds == map[]
    {
      filled := true;
      FilledFieldsValidator(page, R.AllFields);
      ValidateEmails(page, R.CheckForValidEmail);
      ValidateDate(page, R.CheckForValidDateFields);
      // slideToFirstError: with no marker on the page, reading `top` throws
      if markers == map[] {
        end := Threw;
      } else {
        end := Returned(filled);
      }
      R.SubmitCompletes(old(Snapshot()), page);
    }
  }
}
