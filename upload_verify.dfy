/**
 * The `#upload_email` field of social/uploadVerify.js as the handlers change
 * the page: the elements after the field and the parent's `has-error` class are
 * the fields of an `UploadEmailField`.
 */
module UploadVerify {
  import opened JsText
  import opened EmailSyntax
  import U = UploadVerifyRules

  class UploadEmailField {
    var after: seq<string>
    var parentHasError: bool

    function Snapshot(): U.State
      reads this
    {
      U.State(after, parentHasError)
    }

    /** The field as the page has it; the page's markup is a parameter. */
    constructor (after0: seq<string>, parentHasError0: bool)
      ensures Snapshot() == U.State(after0, parentHasError0)
    {
      after := after0;
      parentHasError := parentHasError0;
    }

    /** The blur handler, on the field's current value. */
    method Blur(value: string)
      modifies this
      ensures Snapshot() == U.Blur(old(Snapshot()), value)
      ensures U.MarkerShown(Snapshot()) <==> !IsEmail(Trim(value))
      ensures U.Rest(after) == U.Rest(old(after))
    {
      ghost var st := Snapshot();
      // validateEmail is the pattern test IsEmail
      if value == "" || !IsEmail(Trim(value)) {
        // the next element is removed and the marker inserted in its place
        if after == [] || after[0] != "" {
          after := [U.ErrorMessage] + U.Rest(after);
        } else {
          parentHasError := true;
          after := [U.ErrorMessage] + U.Rest(after);
        }
      } else {
        if after != [] {
          after := [""] + after[1..];
        }
      }
      U.BlurMarker(st, value);
      U.BlurKeepsLaterElements(st, value);
    }

    /** The `success` callback of the verification post. */
    method Respond(data: string) returns (reply: U.Reply)
      modifies this
      ensures reply == U.VerifyOutcome(data)
      ensures Snapshot() == U.Respond(old(Snapshot()), data)
      ensures data == "400" ==> after == [U.ErrorMessage] + old(after)
    {
      if data == "404" {
        reply := U.NotRegisteredDialog(U.NotRegisteredMessage);
      } else if data == "200" {
        reply := U.GoTo("/upload");
      } else if data == "400" {
        after := [U.ErrorMessage] + after;
        reply := U.InsertMarker;
      } else {
        reply := U.NoReply;
      }
    }
  }
}
