/**
 * support.js as the script runs it: the global `filled` and the markers on the
 * page are the fields of a `SupportForm`; the validators, the blur handler and
 * the submit handler are methods tied to their transitions in SupportRules.
 */
module Support {
  import opened JsText
  import opened EmailSyntax
  import opened FormValidation
  import S = SupportRules

  class SupportForm {
    var markers: Markers
    var filled: bool

    function Snapshot(): S.State
      reads this
    {
      S.State(markers, filled)
    }

    /** The page as loaded: no markers and `filled` at its initial `true`. */
    constructor ()
      ensures Snapshot() == S.State(map[], true)
    {
      markers := map[];
      filled := true;
    }

    method SetError(id: string, message: string)
      modifies this
      ensures Snapshot() == S.SetError(old(Snapshot()), id, message)
    {
      filled := false;
      markers := markers - {id};
      markers := markers[id := message];
    }

    method FilledFieldsValidator(page: Page, es: seq<Element>)
      modifies this
      ensures Snapshot() == S.FilledFieldsValidator(old(Snapshot()), page, es)
    {
      ghost var st := Snapshot();
      for i := 0 to |es|
        invariant Snapshot() == S.RunLoop(st, page, TextPresence, es[..i])
      {
        var e := es[i];
        S.RunLoopStep(st, page, TextPresence, es, i);
        match e.fieldType
        case TextBox =>
          if Trim(page.value(e.targetId)) == [] {
            SetError(e.targetId, e.errorMsg);
          }
        case _ =>
          // "Validation not Supported" goes to the console
      }
      assert es[..|es|] == es;
    }

    method EmailValidator(page: Page, es: seq<Element>)
      modifies this
      ensures Snapshot() == S.EmailValidator(old(Snapshot()), page, es)
    {
      ghost var st := Snapshot();
      for i := 0 to |es|
        invariant Snapshot() == S.RunLoop(st, page, Syntax, es[..i])
      {
        S.RunLoopStep(st, page, Syntax, es, i);
        var email := page.value(es[i].targetId);
        if !IsEmail(email) {
          SetError(es[i].targetId, es[i].errorMsg);
        }
      }
      assert es[..|es|] == es;
    }

    method ValidateEmails(page: Page, es: seq<Element>)
      modifies this
      ensures Snapshot() == S.ValidateEmails(old(Snapshot()), page, es)
    {
      EmailValidator(page, es);
    }

    /** `window[validator]([e])`, for the two validators the script defines. */
    method Run(page: Page, v: Validator, e: Element)
      requires S.Defined(v)
      modifies this
      ensures Snapshot() == S.Run(old(Snapshot()), page, v, e)
    {
      if v == FilledFields {
        FilledFieldsValidator(page, [e]);
      } else {
        EmailValidator(page, [e]);
      }
    }

    /** The blur handler bound to field `e`. */
    method Blur(page: Page, e: Element)
      requires forall i :: 0 <= i < |e.validators| ==> S.Defined(e.validators[i])
      modifies this
      ensures Snapshot() == S.Blur(old(Snapshot()), page, e)
    {
      markers := markers - {e.targetId};
      ghost var st := Snapshot();
      var validators := e.validators;
      for i := 0 to |validators|
        invariant S.RunValidators(Snapshot(), page, e, validators[i..]) == S.RunValidators(st, page, e, validators)
      {
        assert validators[i..][0] == validators[i] && validators[i..][1..] == validators[i + 1..];
        Run(page, validators[i], e);
      }
    }

    /** The submit handler; `end` is how it ends, and the form is submitted
        unless it returned false. */
    method Submit(page: Page) returns (end: SubmitEnd)
      modifies this
      ensures Snapshot() == S.Submit(old(Snapshot()), page)
      ensures end == S.SubmitCompletion(old(Snapshot()), page)
      ensures Submits(end) <==> S.FormValid(page)
      ensures end == Threw <==> S.FormValid(page) && old(markers) == map[]
    {
      filled := true;
      FilledFieldsValidator(page, S.AllFields);
      ValidateEmails(page, S.CheckForValidEmail);
      // slideToFirstError: with no marker on the page, reading `top` throws
      if markers == map[] {
        end := Threw;
      } else {
        end := Returned(filled);
      }
      S.SubmitCompletes(old(Snapshot()), page);
    }
  }
}
