/**
 * The email check of social/uploadVerify.js: the blur rule on `#upload_email`
 * and the handling of the server's reply to the verification post. The page
 * state is the sequence of elements that follow the email field, each by its
 * inner HTML, and whether the field's parent has the `has-error` class.
 * The pattern of `validateEmail` is the one of EmailSyntax.
 */
module UploadVerifyRules {
  import opened JsText
  import opened EmailSyntax

  const ErrorMessage := "Please enter a valid email address."
  const NotRegisteredMessage := "It appears that you have not registered for this program yet. You will need to register in order to participate"

  /** `after` holds the inner HTML of the elements that follow the field, in
      document order; `.next()` is the first of them. An error marker is a span
      whose inner HTML is `ErrorMessage`. */
  datatype State = State(after: seq<string>, parentHasError: bool)

  /** The test of the blur handler. */
  predicate Rejected(value: string) {
    value == "" || !IsEmail(Trim(value))
  }

  /** The marker is the element right after the field, where blur puts it. */
  predicate MarkerShown(st: State) {
    st.after != [] && st.after[0] == ErrorMessage
  }

  /** Some element after the field shows the error message. */
  predicate MessageVisible(st: State) {
    ErrorMessage in st.after
  }

  /** `.next().remove()`: the elements after the first; nothing when there is none. */
  function Rest(after: seq<string>): seq<string> {
    if after == [] then [] else after[1..]
  }

  /** The blur handler. When the value is rejected, the next element is
      replaced by the marker, and the parent gets `has-error` only when that
      element was empty (`.html()` of a missing element is `undefined`, which
      differs from ""). Otherwise the next element, if any, is emptied. */
  function Blur(st: State, value: string): State {
    if Rejected(value) then
      if st.after == [] || st.after[0] != "" then State([ErrorMessage] + Rest(st.after), st.parentHasError)
      else State([ErrorMessage] + Rest(st.after), true)
    else
      State(if st.after == [] then [] else [""] + Rest(st.after), st.parentHasError)
  }

  /** The `=== ""` test adds nothing: the empty value never trims to an email. */
  lemma EmptyTestSubsumed(value: string)
    ensures Rejected(value) <==> !IsEmail(Trim(value))
  {
    if value == "" {
      EmptyIsNotEmail();
    }
  }

  /** After a blur the marker is shown exactly when the trimmed value is not an
      email; `has-error` is added only over an empty following element and is
      never removed. */
  lemma BlurMarker(st: State, value: string)
    ensures MarkerShown(Blur(st, value)) <==> !IsEmail(Trim(value))
    ensures Blur(st, value).parentHasError
      == (st.parentHasError || (!IsEmail(Trim(value)) && st.after != [] && st.after[0] == ""))
  {
    EmptyTestSubsumed(value);
  }

  /** A blur only ever touches the element right after the field: the ones
      behind it stay as they were, in order, and no element is added when the
      value passes. */
  lemma BlurKeepsLaterElements(st: State, value: string)
    ensures Rest(Blur(st, value).after) == Rest(st.after)
    ensures !Rejected(value) ==> |Blur(st, value).after| == |st.after|
    ensures Rejected(value) ==> |Blur(st, value).after| == if st.after == [] then 1 else |st.after|
  {
  }

  /** After a blur the message is visible when the value is rejected; when it
      passes, the message is visible exactly when a marker lies further down
      than the next element. */
  lemma BlurMessageVisible(st: State, value: string)
    ensures !IsEmail(Trim(value)) ==> MessageVisible(Blur(st, value))
    ensures IsEmail(Trim(value)) ==> (MessageVisible(Blur(st, value)) <==> ErrorMessage in Rest(st.after))
  {
    EmptyTestSubsumed(value);
    var r := Blur(st, value).after;
    if IsEmail(Trim(value)) && r != [] {
      assert r == [""] + Rest(st.after);
      assert ErrorMessage != "";
    }
  }

  /** A value with surrounding spaces around an email passes: the test trims. */
  lemma PaddedEmailAccepted(st: State, w1: string, e: string, w2: string)
    requires IsBlank(w1) && IsBlank(w2) && IsEmail(e)
    ensures !MarkerShown(Blur(st, w1 + e + w2))
  {
    EmailHasNoOuterSpace(e);
    assert w1 + e + w2 == w1 + (e + w2);
    TrimBlankPrefix(w1, e + w2);
    TrimBlankSuffix(e, w2);
    BlurMarker(st, w1 + e + w2);
  }

  /** Trailing whitespace makes no difference to the trimmed value of a
      string that does not start with whitespace. */
  lemma TrimBlankSuffix(e: string, w: string)
    requires IsBlank(w) && e != [] && !IsJsSpace(e[0]) && !IsJsSpace(e[|e| - 1])
    ensures Trim(e + w) == e
  {
    assert TrimStart(e + w) == e + w;
    TrimEndBlankSuffix(e, w);
  }

  lemma {:induction false} TrimEndBlankSuffix(e: string, w: string)
    requires IsBlank(w) && e != [] && !IsJsSpace(e[|e| - 1])
    ensures TrimEnd(e + w) == e
    decreases |w|
  {
    if w == [] {
      assert e + w == e;
    } else {
      var s := e + w;
      assert s[|s| - 1] == w[|w| - 1];
      assert s[..|s| - 1] == e + w[..|w| - 1];
      TrimEndBlankSuffix(e, w[..|w| - 1]);
    }
  }

  /** What the reply to the verification post leads to. */
  datatype Reply =
    | NotRegisteredDialog(text: string)
    | GoTo(path: string)
    | InsertMarker
    | NoReply

  function VerifyOutcome(data: string): (r: Reply)
    ensures r.NotRegisteredDialog? <==> data == "404"
    ensures r == GoTo("/upload") <==> data == "200"
    ensures r == InsertMarker <==> data == "400"
    ensures r == NoReply <==> data != "404" && data != "200" && data != "400"
  {
    if data == "404" then NotRegisteredDialog(NotRegisteredMessage)
    else if data == "200" then GoTo("/upload")
    else if data == "400" then InsertMarker
    else NoReply
  }

  /** How the not-registered dialog was closed: by its OK button, or dismissed
      with a reason such as `cancel`, `overlay`, `close`, `esc` or `timer`. */
  datatype Closing = Confirmed | Dismissed(reason: string)

  /** Confirming goes to `/register`, a dismissal by the cancel button to
      `/upload`; any other dismissal stays on the page. */
  function DialogRedirect(c: Closing): (r: Option<string>)
    ensures r == Some("/register") <==> c.Confirmed?
    ensures r == Some("/upload") <==> c == Dismissed("cancel")
    ensures r == None <==> c.Dismissed? && c.reason != "cancel"
  {
    match c
    case Confirmed => Some("/register")
    case Dismissed(reason) => if reason == "cancel" then Some("/upload") else None
  }

  /** The page after the reply: a `400` inserts a marker right after the field,
      in front of whatever followed it, and removes nothing. */
  function Respond(st: State, data: string): State {
    if VerifyOutcome(data) == InsertMarker then st.(after := [ErrorMessage] + st.after) else st
  }

  /** Only a `400` changes the page; it pushes every element after the field
      one place down and puts the marker in front. */
  lemma RespondMarks(st: State, data: string)
    ensures data == "400" ==> Respond(st, data).after == [ErrorMessage] + st.after
    ensures data == "400" ==> MarkerShown(Respond(st, data)) && Rest(Respond(st, data).after) == st.after
    ensures data != "400" ==> Respond(st, data) == st
  {
  }

  /** A rejected value, a `400` reply, then a valid value: the last blur empties
      the next element only, so the marker that the `400` pushed down stays on
      the page. The message is visible although the field now holds an email. */
  lemma PushedDownMarkerStays(st: State, bad: string, good: string)
    requires !IsEmail(Trim(bad)) && IsEmail(Trim(good))
    ensures var r := Blur(Respond(Blur(st, bad), "400"), good);
      && r.after == ["", ErrorMessage] + Rest(st.after)
      && !MarkerShown(r) && MessageVisible(r)
  {
    EmptyTestSubsumed(bad);
    EmptyTestSubsumed(good);
    var s1 := Blur(st, bad);
    assert s1.after == [ErrorMessage] + Rest(st.after);
    var s2 := Respond(s1, "400");
    assert s2.after == [ErrorMessage, ErrorMessage] + Rest(st.after);
    var r := Blur(s2, good);
    assert Rest(s2.after) == [ErrorMessage] + Rest(st.after);
    assert r.after == [""] + ([ErrorMessage] + Rest(st.after));
    assert r.after[1] == ErrorMessage;
  }

  /** The same run with `x` and `a@b.com`. */
  lemma PushedDownMarkerExample(st: State)
    ensures var r := Blur(Respond(Blur(st, "x"), "400"), "a@b.com");
      !MarkerShown(r) && MessageVisible(r)
  {
    NoAtNoEmail("x");
    SingleDomainEmail("a", "b", "com");
    assert "a" + "@" + ("b" + "." + "com") == "a@b.com";
    EmailHasNoOuterSpace("a@b.com");
    PushedDownMarkerStays(st, "x", "a@b.com");
  }

  /** A value with no `@` is not an email, and it is its own trim when it has no
      whitespace at all. */
  lemma NoAtNoEmail(s: string)
    requires forall i :: 0 <= i < |s| ==> s[i] != '@' && !IsJsSpace(s[i])
    ensures !IsEmail(Trim(s))
  {
    if s != [] {
      TrimTidy(s);
    }
  }

  /** An atom, an `@`, a label, a dot and a top label form an email. */
  lemma SingleDomainEmail(local: string, host: string, top: string)
    requires IsAtom(local) && IsLabel(host) && IsTopLabel(top)
    ensures IsEmail(local + "@" + (host + "." + top))
  {
    var s := local + "@" + (host + "." + top);
    AtomIsLocalPart(local);
    TwoLabelHostName(host, top);
    assert s[..|local|] == local && s[|local| + 1..] == host + "." + top;
    assert IsAtSplit(s, |local|);
  }
}
