# Form validation and receipt upload of the playseed client

This project models the client-side logic of the playseed promotion site in Dafny. It covers five scripts:

- **register.js** — the validation engine for the registration form. A registry of `Element` records names each field, its type, its validators and its error message. Validators run on blur (one field) and on submit (every field). They write error markers through `setError` and keep three module flags: `filled`, `validity` and `validDateFragments`.
- **support.js** — the smaller copy of that engine for the support form. It has three text boxes and no date or match checks.
- **dnd/dndUpload.js** — the single-slot Dropzone widget. It holds at most one receipt image, refuses non-images and files over 5 MiB, and keeps the `shouldLoad` flag and the `#check-can-pull` flags. A FileReader copies the admitted image into `#image-data-holder1`.
- **social/trigger.js** — the upload gate on `#check-can-pull`, `getCookie`, `dataURItoBlob` and the handling of the server's reply (`d`, `s`, other).
- **social/uploadVerify.js** — the blur rule on `#upload_email`, the handling of the reply to the verification post (`404`, `200`, `400`) and `getCookie`.

## How the model is organised

- **Pure pieces are modules of functions and lemmas.**
  - `JsText` covers the `\s` whitespace class, trim, split, substring and the number coercion of a comparison.
  - `EmailSyntax` is the email pattern. It is character-identical in register.js, support.js and uploadVerify.js (`validateEmail`), so one predicate serves all three.
  - `DateFormat` is the `dateFormat` pattern.
  - `FormValidation` covers the records, the page and the validator loops.
  - `Cookies` is `getCookie`. The two copies in trigger.js and uploadVerify.js are identical.
- **Each script that mutates state has a rules module and a class.**
  - The rules module (`RegisterRules`, `SupportRules`, `DndRules`, `UploadVerifyRules`) states each handler as a transition on a `State` value, and holds the proofs.
  - A class (`Register.RegisterForm`, `Support.SupportForm`, `DndUpload.UploadWidget`, `UploadVerify.UploadEmailField`) keeps the globals and page flags as fields. Its methods update them step by step, in the script's order. Each method's postcondition ties the new state to the transition: `Snapshot() == R.Submit(old(Snapshot()), page)`.
- **The page is a value.** Field values are a function from id to string, plus the set of checked boxes and the reCAPTCHA token. The error markers are a map from field id to message: `setError` removes the old marker and inserts a new one, so there is at most one per id.
- **The elements after `#upload_email` are a sequence.** They are held in document order, each by its inner HTML. A blur replaces or empties only the first of them. A `400` reply inserts a marker in front of all of them.
- **Number coercion.** A comparison such as `year < 1947` on a field value uses an explicit rule:
  - the value is trimmed;
  - the empty string is 0;
  - a string of ASCII digits is its value;
  - anything else is NaN, and NaN compares false.
- **Where the code and the design description disagree, the model follows the code.**
  - The description says a valid submit leaves no markers. The code removes only the three date markers on a valid submit. A marker left by an earlier blur on another field (say, an email since corrected) stays (`RegisterRules.ValidSubmitClearsOnlyDateMarkers`). support.js never removes a marker on submit (`SupportRules.SubmitMarkers`).
  - A submit pass that leaves no marker on the page does not return `filled`. `slideToFirstError` reads `.top` of an undefined offset and throws, and the browser then submits the form as if the handler had returned true (`RegisterRules.SubmitCompletes`, `SupportRules.SubmitCompletes`).
  - The description says a rejected file clears the ready flag. The `error` handler clears `shouldLoad` only for a file that was not accepted.
  - The description says a non-image sets the upload flag to "not ready". The `addedfile` handler writes `no` to `#check-can-pull1`, not `#check-can-pull` (`DndRules.ReplacementByNonImageLeavesYes`).

## Model

| member | source | states |
|---|---|---|
| Register.RegisterForm.SetError | public/javascripts/register.js:48-56 | `filled` becomes false. The marker for the id is replaced by the new message. Nothing else changes. |
| Register.RegisterForm.FilledFieldsValidator | public/javascripts/register.js:58-87 | The presence loop, element by element, per field type, ends in the state `RegisterRules.FilledFieldsValidator` gives. |
| Register.RegisterForm.EmailValidator | public/javascripts/register.js:94-104 | The loop resets `validity`. It then marks and clears `validity` for each element whose untrimmed value the pattern rejects. |
| Register.RegisterForm.MatchEmailValidator | public/javascripts/register.js:106-118 | With `validity` set, the confirm field is marked with the fixed message when the two emails differ. Otherwise the syntax check re-runs on the confirm field. |
| Register.RegisterForm.ValidateEmails | public/javascripts/register.js:89-92 | Syntax check on both emails, then the match check on the confirm field. |
| Register.RegisterForm.RangeValidator | public/javascripts/register.js:131-159 | A value out of range marks its field and clears `validDateFragments`. |
| Register.RegisterForm.YearValidator | public/javascripts/register.js:131-139 | The range loop over [1947, 2000]. |
| Register.RegisterForm.MonthValidator | public/javascripts/register.js:141-149 | The range loop over [1, 12]. |
| Register.RegisterForm.DayValidator | public/javascripts/register.js:151-159 | The range loop over [1, 31]. |
| Register.RegisterForm.DateValidator | public/javascripts/register.js:161-177 | With all three parts non-empty: a failed match marks day, month and year; a match removes the three date markers. With a part empty, nothing changes. |
| Register.RegisterForm.ValidateDate | public/javascripts/register.js:120-129 | `validDateFragments` is reset, the three range checks run, and the date check runs only if all of them passed. |
| Register.RegisterForm.Run | public/javascripts/register.js:188-190 | `window[validator]([element])`, as an explicit mapping from validator name to validator. |
| Register.RegisterForm.Blur | public/javascripts/register.js:184-191 | The field's own marker is removed, then its declared validators run in order on `[field]`. |
| Register.RegisterForm.Submit | public/javascripts/register.js:197-204 | `filled` is set to true, then presence, emails and date run. The handler ends as `RegisterRules.SubmitCompletion` says: it throws when no marker is left, and otherwise returns the final `filled`. The form is submitted iff `RegisterRules.FormValid(page)`. |
| FormValidation.NoMarksIffAllPass | public/javascripts/register.js:58-87 | A validator loop makes no `setError` call iff every element passes its test. |
| FormValidation.LoopMarkers | public/javascripts/register.js:48-56 | After a loop, the marked ids are the old ones plus the failing ones. The marker of every id that passes is unchanged. |
| FormValidation.LoopLastWriter | public/javascripts/register.js:48-56 | A failing element keeps its own message unless a later element with the same id overwrites it: the last writer wins. |
| FormValidation.LoopKeepsMarker | public/javascripts/register.js:48-56 | A loop that writes only `message` for an id keeps the marker `id -> message`. |
| FormValidation.PresenceByType | public/javascripts/register.js:62-85 | A text box or select fails iff its trimmed value is empty. A check box fails iff unchecked. The captcha fails iff the token is empty. An unsupported type is never marked. |
| FormValidation.TextPresenceByType | public/javascripts/support.js:40-48 | support.js's presence test fails only for a text box, and only when its value is blank. |
| RegisterRules.RunLoopFilled | public/javascripts/register.js:48-49 | After a loop, `filled` stays true iff it was true and every element passed. |
| RegisterRules.EmailValidatorEffect | public/javascripts/register.js:94-104 | `validity` ends true iff every element's untrimmed value matches. Exactly the rejected ids are marked, and other markers are unchanged. |
| RegisterRules.MatchEmailEffect | public/javascripts/register.js:106-118 | With `validity`: the confirm field is marked with "Confirm email must be the same as email." iff the emails differ (exact comparison). Without it: the syntax check runs on the confirm field alone and resets `validity`. |
| RegisterRules.RangeValidatorSingle | public/javascripts/register.js:131-159 | An out-of-range value marks its field and clears `validDateFragments`. An in-range value changes nothing. |
| RegisterRules.ValidateEmailsFilled | public/javascripts/register.js:89-118 | The email stage keeps `filled` iff both emails match the pattern and are equal. |
| RegisterRules.RangePhaseEffect | public/javascripts/register.js:121-125 | The range phase marks each part out of range with its own message. `validDateFragments` ends true iff all three parts are in range. |
| RegisterRules.ValidateDateFilled | public/javascripts/register.js:121-129 | The date stage keeps `filled` iff all three parts are in range and `month/day/year` matches the date pattern. |
| RegisterRules.SubmitPassesIffValid | public/javascripts/register.js:197-204 | Submit returns true iff every field is present, both emails match and are equal, the parts are in range, and the date matches. |
| RegisterRules.PresenceOfAllFields | public/javascripts/register.js:13-31 | Presence of all nine fields: names, emails and date selects non-blank, the agreement box checked, the captcha answered. |
| RegisterRules.InvalidSubmitLeavesMarker | public/javascripts/register.js:197-202 | A pass that fails any check leaves at least one marker on the page. |
| RegisterRules.SubmitCompletes | public/javascripts/register.js:197-204 | The form is submitted (the handler returns true or throws) iff the page passes every check. The handler throws in `slideToFirstError` iff the page is valid and no marker outside the date fields was left from before. |
| RegisterRules.SubmitAcceptsCalendarDates | public/javascripts/register.js:197-204 | For a decimal date, submit returns true iff the contact fields are valid, 1947 ≤ year ≤ 2000, 1 ≤ month ≤ 12 and the day exists in that month of that year. |
| RegisterRules.ValidSubmitClearsOnlyDateMarkers | public/javascripts/register.js:172-176 | On a valid page, submit returns true and removes exactly the three date markers. Any other marker survives. |
| RegisterRules.AllFieldsDistinct | public/javascripts/register.js:23-31 | The nine registered ids are pairwise distinct. |
| RegisterRules.EmailsKeepOwnMarker | public/javascripts/register.js:89-118 | The email stage never replaces a field's own marker by another message. |
| RegisterRules.DateKeepsOwnMarker | public/javascripts/register.js:120-177 | The date stage never removes the marker of a field that failed presence: a missing part blocks the date check. |
| RegisterRules.SubmitMarksMissingFields | public/javascripts/register.js:197-201 | After submit, every field that fails presence carries its own error message. |
| RegisterRules.BlurFrame | public/javascripts/register.js:184-191 | A blur changes only the markers of the field itself, plus the three date markers for a date field. |
| RegisterRules.BlurPresenceOnly | public/javascripts/register.js:184-191 | For a field with only the presence validator, the field ends marked iff it fails presence. `filled` is cleared then. |
| RegisterRules.PresenceThenSyntax | public/javascripts/register.js:58-104 | On a text box, presence then syntax leaves the field marked iff the pattern rejects it. `validity` equals the pattern test. |
| RegisterRules.BlurEmail | public/javascripts/register.js:184-191 | Blurring the email field leaves it marked iff the pattern rejects its value. |
| RegisterRules.BlurConfirmedEmail | public/javascripts/register.js:184-191 | Blurring the confirm field leaves it marked iff the pattern rejects it or it differs from the email. |
| RegisterRules.BlurDateField | public/javascripts/register.js:184-191 | Blurring a date field with a decimal date: a calendar date removes all three date markers, whatever range marker was just set. Otherwise all three parts are marked. |
| RegisterRules.BlurClearsOutOfRangeYear | public/javascripts/register.js:167-191 | For a calendar date whose year lies in 1600-9999 but outside 1947-2000 (5/5/1930, say), the year is out of range, yet a blur of the year field leaves no year marker. |
| RegisterRules.BlankPartRejects | public/javascripts/register.js:166-168 | A non-empty blank part makes `month/day/year` fail the date pattern. |
| RegisterRules.BlurBlankDateField | public/javascripts/register.js:184-191 | Blurring a blank date field leaves it marked with its own message. |
| DateFormat.DateFormatIsCalendar | public/javascripts/register.js:11 | For decimal m/d/y with years 1600-9999, the pattern accepts iff the day exists in that month of the Gregorian calendar. |
| DateFormat.CalendarExamples | public/javascripts/register.js:11 | 2/29/2000 passes; 2/30/2000, 4/31/1990 and 2/29/1900 do not. |
| DateFormat.DateFormatChars | public/javascripts/register.js:11 | A matching string holds only digits, commas and separators. |
| EmailSyntax.AtSplitUnique | public/javascripts/register.js:10 | A matching address splits at exactly one `@`. |
| EmailSyntax.EmailAtOnlyAt | public/javascripts/register.js:10 | A string with a single `@` matches iff its two sides are a local part and a domain. |
| EmailSyntax.EmailHasNoOuterSpace | public/javascripts/register.js:10 | A matching string has no whitespace at either end, so it is its own trim. |
| EmailSyntax.AcceptsPlainAddress | public/javascripts/register.js:10 | `user@example.com` matches. |
| EmailSyntax.RejectsMalformedDomains | public/javascripts/social/uploadVerify.js:14-17 | `user@.com` and `user@com` do not match. |
| JsText.TrimEmptyIffBlank | public/javascripts/support.js:42 | A value trims to the empty string iff it is all whitespace. |
| JsText.ToNumberDecimal | public/javascripts/register.js:134 | A decimal rendering coerces to its own value. |
| JsText.BlankIsOutOfRange | public/javascripts/register.js:134-154 | A blank value coerces to 0 and so fails every range check. |
| Support.SupportForm.SetError | public/javascripts/support.js:30-34 | `filled` becomes false and only the target field's marker is replaced. |
| Support.SupportForm.FilledFieldsValidator | public/javascripts/support.js:36-50 | The presence loop, text boxes only; other types are ignored. |
| Support.SupportForm.EmailValidator | public/javascripts/support.js:57-64 | Each element whose untrimmed value the pattern rejects is marked. |
| Support.SupportForm.ValidateEmails | public/javascripts/support.js:52-54 | The syntax loop alone. |
| Support.SupportForm.Run | public/javascripts/support.js:74-76 | `window[validator]([element])` for the two validators support.js defines. |
| Support.SupportForm.Blur | public/javascripts/support.js:70-78 | The field's own marker is removed, then its declared validators run in order. |
| Support.SupportForm.Submit | public/javascripts/support.js:83-89 | The handler ends as `SupportRules.SubmitCompletion` says. The form is submitted iff the three fields are non-blank and the email matches. It throws iff that holds and the page held no marker before. |
| SupportRules.SubmitPassesIffValid | public/javascripts/support.js:83-89 | Submit returns true iff name, email and message are non-blank and the email matches the pattern. |
| SupportRules.SubmitCompletes | public/javascripts/support.js:83-89 | The form is submitted (the handler returns true or throws) iff `SupportRules.FormValid(page)`. The handler throws in `slideToFirstError` iff the page is valid and held no marker before the pass. |
| SupportRules.SubmitMarkers | public/javascripts/support.js:36-64 | After submit every invalid field carries its own message. A valid field keeps whatever marker it had, and no marker is ever removed. |
| SupportRules.BlurField | public/javascripts/support.js:70-78 | Blurring a field leaves it marked with its own message iff it is blank or, for the email, rejected by the pattern. Otherwise its marker is gone and no other marker changes. |
| DndUpload.UploadWidget.RemoveFile | public/javascripts/dnd/dndUpload.js:27 | `removeFile` drops every entry for that file from the list, keeping the order. |
| DndUpload.UploadWidget.AddFile | public/javascripts/dnd/dndUpload.js:30-82 | The push, the eviction and the four type and size tests run in order and start a read, ending in `DndRules.AddFile`. |
| DndUpload.UploadWidget.OnError | public/javascripts/dnd/dndUpload.js:20-29 | The `error` handler, ending in `DndRules.OnError`. |
| DndUpload.UploadWidget.OnReadComplete | public/javascripts/dnd/dndUpload.js:66-80 | The read's `onload`, ending in `DndRules.OnReadComplete`. |
| DndRules.WithoutFilters | public/javascripts/dnd/dndUpload.js:27 | The remaining entries are entries of the list, none of them the removed file, and every other entry remains. |
| DndRules.AddFileSingleSlot | public/javascripts/dnd/dndUpload.js:30-82 | From at most one file: the older file is evicted, and the new one stays iff it is an image of at most 5 MiB. `shouldLoad` ends true iff it stays. `#check-can-pull` is `no` after an oversize image, `yes` after a replacement otherwise, and unchanged else. `#check-can-pull1` is `no` after a non-image. |
| DndRules.ShouldLoadIffHeld | public/javascripts/dnd/dndUpload.js:32-62 | `shouldLoad` ends true iff the list is exactly the new file. |
| DndRules.ReplacementByNonImageLeavesYes | public/javascripts/dnd/dndUpload.js:33-51 | A non-image replacing a held file leaves no file held, yet `#check-can-pull` stays at the `yes` the eviction wrote. |
| DndRules.SizeBoundary | public/javascripts/dnd/dndUpload.js:52-62 | An image of exactly 5·1024·1024 bytes is kept; one byte more is refused and writes `no`. |
| DndRules.ErrorEffect | public/javascripts/dnd/dndUpload.js:20-29 | The error handler always writes `no`, drops the file and shows the warning. It clears `shouldLoad` only for a file that was not accepted. |
| DndRules.AddThenRead | public/javascripts/dnd/dndUpload.js:66-80 | The read of an admitted file writes its data to the holder and `yes` to the flag. A refused file's read leaves holder and flag as the handler left them. |
| DndRules.AcceptedErrorThenRead | public/javascripts/dnd/dndUpload.js:20-78 | After an error on an accepted file, its pending read still writes the holder and `yes`, although the file was removed. |
| DndRules.SingleSlotPreserved | public/javascripts/dnd/dndUpload.js:20-82 | Every handler keeps at most one file in the list. |
| DndRules.CompleteAgreesWithAdmission | public/javascripts/dnd/dndUpload.js:84-101 | `complete` returns false exactly for the files the `addedfile` handler refuses. |
| Cookies.FirstMatch | public/javascripts/social/trigger.js:122-129 | The index of the first entry whose trimmed form starts with `name=`, or none iff no entry does. |
| Cookies.GetCookie | public/javascripts/social/trigger.js:119-132 | The index loop with its early `break` returns `Cookies.Lookup`. uploadVerify.js:86-99 is the same code. |
| Cookies.EmptyCookieIsNull | public/javascripts/social/trigger.js:120-121 | An empty cookie string gives `null`. |
| Cookies.NullIffNoMatch | public/javascripts/social/uploadVerify.js:86-99 | The result is `null` iff the cookie string is empty or no entry matches. |
| Cookies.FirstMatchWins | public/javascripts/social/trigger.js:122-129 | Otherwise the result is the decoded text after `name=` of the first matching entry. |
| Cookies.LeadingEntryDecides | public/javascripts/social/trigger.js:127 | A matching first entry decides the result whatever follows it, including later entries of the same name. |
| Cookies.SecondEntryDecides | public/javascripts/social/uploadVerify.js:90-95 | When the first entry does not match, a matching second entry decides. |
| Cookies.ExtendedNameDoesNotMatch | public/javascripts/social/trigger.js:125 | An entry whose name only extends `name` does not match, because the `=` is part of the tested prefix. |
| Cookies.LeadingSpaceIgnored | public/javascripts/social/uploadVerify.js:91-92 | Leading whitespace of an entry has no effect on the test. |
| Cookies.SingleEntry | public/javascripts/social/trigger.js:119-132 | The cookie string `name=value` gives the decoded value. |
| Cookies.CsrfExample | public/javascripts/social/trigger.js:119-132 | `CSRF-TokenX=1; CSRF-Token=2` gives the second value for `CSRF-Token`. |
| Trigger.SaveGate | public/javascripts/social/trigger.js:20-26 | The upload runs iff `#check-can-pull` reads exactly `yes`; otherwise the alert is shown. |
| Trigger.DataURIToBlob | public/javascripts/social/trigger.js:134-143 | The fresh byte array holds one byte per character of the decoded payload (its char code modulo 256). The type is the text before the first comma. |
| Trigger.Bytes | public/javascripts/social/trigger.js:139-141 | The byte string has the decoded string's length, and byte i is char code i modulo 256. |
| Trigger.BytesRoundTrip | public/javascripts/social/trigger.js:139-141 | For a binary string (codes below 256) the bytes give the string back, and bytes read as characters give the same bytes. |
| Trigger.PayloadBetweenCommas | public/javascripts/social/trigger.js:135-136 | The payload is the text between the first and second commas, and the type the text before the first. |
| Trigger.DataUrlParts | public/javascripts/social/trigger.js:135-136 | For `data:<type>;base64,<b64>` the payload is the base64 text and the Blob type the whole header. |
| Trigger.NoCommaNoPayload | public/javascripts/social/trigger.js:135 | Without a comma, `atob` receives "undefined". |
| Trigger.ReceiptOutcome | public/javascripts/social/trigger.js:75-94 | `d` gives the duplicate warning, `s` the success dialog that leads to `/`, and anything else the generic error. |
| Trigger.TransportErrorIsUnknownReply | public/javascripts/social/trigger.js:96-105 | For every reply other than `d` and `s`, a failed post shows the same generic banner as that reply does. |
| Trigger.GateOpensForAdmittedImage | public/javascripts/social/trigger.js:20-26 | Once an admitted image has been read (the read handler at dnd/dndUpload.js:66-80), the gate opens and the holder holds its data. |
| Trigger.GateClosedAfterError | public/javascripts/social/trigger.js:20-26 | After the widget's error handler (dnd/dndUpload.js:20-29, which writes `no`), the gate is closed. |
| Trigger.GateOpenAfterNonImageReplacement | public/javascripts/social/trigger.js:20-26 | After a held image is replaced by a non-image (the `addedfile` handler at dnd/dndUpload.js:33-51), the gate is open although no file is held and the holder still has the old data. |
| UploadVerifyRules.EmptyTestSubsumed | public/javascripts/social/uploadVerify.js:20 | The `=== ""` test adds nothing to the trimmed pattern test. |
| UploadVerifyRules.BlurMarker | public/javascripts/social/uploadVerify.js:19-33 | After a blur the marker is shown iff the trimmed value is not an email. `has-error` is added only when the next element is empty, and it is never removed. |
| UploadVerifyRules.BlurKeepsLaterElements | public/javascripts/social/uploadVerify.js:19-33 | A blur changes only the element right after the field. The elements behind it stay as they were, in order. |
| UploadVerifyRules.BlurMessageVisible | public/javascripts/social/uploadVerify.js:19-33 | After a blur with a rejected value, the message is visible. After one with a passing value, it is visible iff a marker lies below the next element. |
| UploadVerifyRules.PaddedEmailAccepted | public/javascripts/social/uploadVerify.js:20 | An email with surrounding whitespace passes, because the value is trimmed before the test. |
| UploadVerifyRules.VerifyOutcome | public/javascripts/social/uploadVerify.js:51-81 | `404` gives the not-registered dialog, `200` goes to `/upload`, `400` inserts a marker, and any other reply does nothing. |
| UploadVerifyRules.DialogRedirect | public/javascripts/social/uploadVerify.js:66-73 | Confirming goes to `/register`, cancelling to `/upload`; any other dismissal stays on the page. |
| UploadVerifyRules.RespondMarks | public/javascripts/social/uploadVerify.js:77-80 | Only a `400` changes the page. It puts the marker in front and pushes every element after the field one place down, removing none. |
| UploadVerifyRules.PushedDownMarkerStays | public/javascripts/social/uploadVerify.js:19-80 | A rejected blur, a `400`, then a passing blur: only the next element is emptied, so the pushed-down marker stays visible. |
| UploadVerifyRules.PushedDownMarkerExample | public/javascripts/social/uploadVerify.js:19-80 | The same run with `x` and `a@b.com` ends with the message visible but no marker right after the field. |
| UploadVerify.UploadEmailField.Blur | public/javascripts/social/uploadVerify.js:19-33 | The handler updates the elements after the field and `has-error` as `UploadVerifyRules.Blur` says. The marker is shown iff the trimmed value is not an email, and only the next element changes. |
| UploadVerify.UploadEmailField.Respond | public/javascripts/social/uploadVerify.js:51-81 | The reply is classified by `UploadVerifyRules.VerifyOutcome`. A `400` inserts the marker in front of the existing elements. |

## Left out

- The scroll animation of `slideToFirstError` and where a marker is placed. The placement (after the field, or after `#checkbox-error` for `isAgree`) and `htmlFormatted` are layout, and markers are a map from field id to message. The model keeps that `slideToFirstError` throws when no marker is on the page (`SubmitEnd.Threw`). It assumes the page has no `custom-error-locator` element other than the markers.
- The console message for a field type with no presence rule, and the unused read of `#check-can-pull` in `addedfile`. Neither changes any state.
- Support.SupportForm.Run: a validator name that support.js does not define would throw in `window[validator]`. The model requires one of the two defined names, since the registry names no other.
- FormValidation.Fails: the range checks coerce a value by the rule in `JsText.ToNumber`. JavaScript also reads signs, decimals, exponents, hexadecimal and `Infinity` as numbers, but the model treats them as NaN. The select options of the page supply decimal values only.
- The JavaScript regular-expression engine. The email and date patterns are hand-coded predicates, and a match is the existence of a split of the string.
- Dropzone's own checks are not modelled: `acceptedFiles`, `maxFiles`, `maxFilesize` and the `accept` callback. Only their outcome is: the `error` event and the `accepted` flag of a file. Thumbnails, the preview template, `removeFile` beyond the file list, and the `sending` handler that `complete` registers (it does nothing) are left out too.
- The `Image` object created in the read's `onload`, and how reads are scheduled. A finished read is an explicit step, `OnReadComplete`, that may take any pending read in any order.
- DndRules.File: sizes are naturals. The handler's floating-point test `size / 1024 / 1024 > 5` divides by powers of two, so it is exact for every real file size.
- AJAX posts, the CSRF header, `FormData`, `Blob` objects, `$.blockUI`, `swal`, `alert`, the flash banner's close button and `window.location`. They are I/O and UI; each reply is modelled as the outcome value it leads to.
- The `swal == 'undefined'` fallback. It compares a function with a string, so it never holds.
- The removal of `#warn-msg` in the post's `error` callback of trigger.js. It is UI, and `Trigger.TransportError` models only the banner.
- The click handlers for `#receipt-upload` and `#upload-more-trick` in trigger.js. They are plain UI.
- The verification post of uploadVerify.js, which sends the untrimmed value. It is I/O.
- termsModal.js is not part of this model. It is a remote modal load with CSS toggles.
- Cookies.GetCookie: `decodeURIComponent` is a total function parameter. The URIError it throws on a malformed escape is not modelled, and neither is reading `document.cookie`.
- Trigger.DataURIToBlob: `atob` is a function parameter. Its InvalidCharacterError on text that is not base64 is not modelled.
- The initial markup of the page: the flags' text and the element after `#upload_email`. The upload widget starts with empty flags; the email field takes its initial state as a constructor argument.
