/**
 * The receipt upload of social/trigger.js: the gate on `#check-can-pull`, the
 * decoding of the image held in `#image-data-holder1` into the bytes that are
 * posted (a `data:` URL, section 3 of RFC 2397), and the reply to the post.
 * `atob` is a parameter; the post itself, the dialogs and the redirect are
 * represented by the outcome they lead to.
 */
module Trigger {
  import opened JsText
  import D = DndRules

  newtype byte = x: int | 0 <= x < 256

  /** What a click on `#save-canvas-test` does. */
  datatype GateOutcome = SaveReceipt | AlertImageSize

  const ImageSizeAlert := "Please select your image by clicking on the box below."

  /** The click handler: the upload runs only when the flag reads `yes`. */
  function SaveGate(canPull: string): (r: GateOutcome)
    ensures r == SaveReceipt <==> canPull == "yes"
  {
    if canPull == "yes" then SaveReceipt else AlertImageSize
  }

  /** `imageData.split(',')[1]`: the text between the first and second commas,
      or `undefined`, which `atob` receives as the string "undefined". */
  function Payload(uri: string): string {
    var pieces := Split(uri, ',');
    if |pieces| > 1 then pieces[1] else "undefined"
  }

  /** `imageData.split(',')[0]`: the text before the first comma. */
  function ImageType(uri: string): string {
    Split(uri, ',')[0]
  }

  /** The store into a `Uint8Array` keeps the low eight bits of a char code. */
  function ToUint8(c: char): byte {
    ((c as int) % 256) as byte
  }

  /** The bytes of a binary string, one per character. */
  function Bytes(s: string): (r: seq<byte>)
    ensures |r| == |s|
    ensures forall i :: 0 <= i < |s| ==> r[i] == ToUint8(s[i])
  {
    seq(|s|, i requires 0 <= i < |s| => ToUint8(s[i]))
  }

  /** The binary string of some bytes, one character per byte. */
  function Latin1(bs: seq<byte>): (s: string)
    ensures |s| == |bs|
    ensures forall i :: 0 <= i < |bs| ==> s[i] as int == bs[i] as int
  {
    seq(|bs|, i requires 0 <= i < |bs| => (bs[i] as int) as char)
  }

  /** A string `atob` can return: every char code is below 256. */
  predicate IsBinaryString(s: string) {
    forall i :: 0 <= i < |s| ==> (s[i] as int) < 256
  }

  /** `dataURItoBlob`: the bytes and the type of the Blob. */
  method DataURIToBlob(imageData: string, atob: string -> string) returns (ia: array<byte>, imageType: string)
    ensures fresh(ia)
    ensures ia[..] == Bytes(atob(Payload(imageData)))
    ensures imageType == ImageType(imageData)
  {
    var byteString := atob(Payload(imageData));
    imageType := ImageType(imageData);
    ia := new byte[|byteString|];
    for i := 0 to |byteString|
      invariant forall j :: 0 <= j < i ==> ia[j] == ToUint8(byteString[j])
    {
      ia[i] := ToUint8(byteString[i]);
    }
  }

  /** Each byte copies its character's code: a binary string and its bytes
      determine each other. */
  lemma BytesRoundTrip(s: string, bs: seq<byte>)
    ensures IsBinaryString(s) ==> Latin1(Bytes(s)) == s
    ensures Bytes(Latin1(bs)) == bs
  {
    if IsBinaryString(s) {
      var t := Latin1(Bytes(s));
      assert forall i :: 0 <= i < |s| ==> t[i] == s[i] by {
        forall i | 0 <= i < |s| ensures t[i] == s[i] {
          assert (s[i] as int) % 256 == s[i] as int;
        }
      }
    }
    var r := Bytes(Latin1(bs));
    forall i | 0 <= i < |bs| ensures r[i] == bs[i] {
      assert (Latin1(bs)[i] as int) % 256 == bs[i] as int;
    }
  }

  /** For `t,p,rest` with no comma in `t` or `p`, the type is `t` and the
      payload is `p`; any later comma-separated text is dropped. */
  lemma PayloadBetweenCommas(t: string, p: string, rest: string)
    requires ',' !in t && ',' !in p
    ensures ImageType(t + "," + p + "," + rest) == t
    ensures Payload(t + "," + p + "," + rest) == p
  {
    var u := t + "," + p + "," + rest;
    assert u == t + [','] + (p + [','] + rest);
    SplitAppend(t, ',', p + [','] + rest);
    SplitAppend(p, ',', rest);
  }

  /** A data URL of the form `data:<type>;base64,<b64>`, with no other comma:
      the payload is the base64 text and the Blob type is the whole header,
      `data:` and `;base64` included. */
  lemma DataUrlParts(header: string, b64: string)
    requires ',' !in header && ',' !in b64
    ensures ImageType(header + "," + b64) == header
    ensures Payload(header + "," + b64) == b64
  {
    assert header + "," + b64 == header + [','] + b64;
    SplitAppend(header, ',', b64);
    SplitNoSep(b64, ',');
  }

  /** A text with no comma, such as an empty holder, has no payload: `atob`
      gets "undefined". */
  lemma NoCommaNoPayload(uri: string)
    requires ',' !in uri
    ensures Payload(uri) == "undefined" && ImageType(uri) == uri
  {
    SplitNoSep(uri, ',');
  }

  /** The reply to the receipt post. */
  datatype ReceiptReply =
    | DuplicateWarning(text: string)
    | SuccessDialog(title: string, text: string, redirect: string)
    | ErrorBanner(text: string)

  const DuplicateReceipt := "It appears that this receipt has been submitted before. Please submit a new receipt."
  const Success := "Congratulations"
  const ReceiptSuccess := "Thank you! Your submissions has been accepted. Please allow 24-48 hours for us to validate your submission"
  const ErrorMessage := "Something went wrong, please try again."

  /** The `success` callback: `d` is a duplicate, `s` a success that leads
      to `/`, anything else the generic error. */
  function ReceiptOutcome(data: string): (r: ReceiptReply)
    ensures r.DuplicateWarning? <==> data == "d"
    ensures r.SuccessDialog? <==> data == "s"
    ensures r.ErrorBanner? <==> data != "d" && data != "s"
  {
    if data == "d" then DuplicateWarning(DuplicateReceipt)
    else if data == "s" then SuccessDialog(Success, ReceiptSuccess, "/")
    else ErrorBanner(ErrorMessage)
  }

  /** The `error` callback of the post: the generic banner. */
  function TransportError(): ReceiptReply {
    ErrorBanner(ErrorMessage)
  }

  /** A post that fails at the transport level shows the same banner as a
      reply other than `d` and `s`. */
  lemma TransportErrorIsUnknownReply(data: string)
    requires data != "d" && data != "s"
    ensures TransportError() == ReceiptOutcome(data)
  {
  }

  /** The gate after the upload widget has handled a file and the read of the
      file has finished: it opens for an admitted image, whose data URL is then
      what is posted. */
  lemma GateOpensForAdmittedImage(st: D.State, f: D.File)
    requires D.SingleSlot(st) && D.Fresh(st, f) && D.Admissible(f)
    ensures var s := D.AddFile(st, f);
      && |st.pendingReads| < |s.pendingReads|
      && var r := D.OnReadComplete(s, |st.pendingReads|);
      && SaveGate(r.canPull) == SaveReceipt && r.holder == f.dataUrl
  {
    D.AddThenRead(st, f);
  }

  /** After the `error` handler the gate is closed. */
  lemma GateClosedAfterError(st: D.State, f: D.File)
    ensures SaveGate(D.OnError(st, f).canPull) == AlertImageSize
  {
    D.ErrorEffect(st, f);
  }

  /** Replacing a held image by a non-image leaves the gate open although no
      file is held: the post then sends whatever the holder still contains. */
  lemma GateOpenAfterNonImageReplacement(st: D.State, f: D.File)
    requires |st.files| == 1 && D.Fresh(st, f) && !D.IsImage(f)
    ensures var r := D.AddFile(st, f);
      r.files == [] && SaveGate(r.canPull) == SaveReceipt && r.holder == st.holder
  {
    D.ReplacementByNonImageLeavesYes(st, f);
    D.AddFileSingleSlot(st, f);
  }
}
