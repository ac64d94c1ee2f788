# Issue page script: a Dafny model

`scripts.js` drives the issue page of a developer-task tracker. This project
models the parts of it that decide something:

- **The elapsed-time timer.** It holds a count of seconds, seeded at 9000 (2.5 hours), and a running flag. Start, Pause and Stop change it, and so does the one-second interval callback.
- **The `HH:MM:SS` display** of that count.
- **The work-log form.** This covers:
  - the five-entry table of minimum lengths;
  - the live character counters and markers;
  - the submit pass that gathers every error in table order;
  - the time-spent rule;
  - the decision to post the trimmed payload.
- **`escapeHtml`**, which makes a posted comment inert text on the page.
- **The comment guard and the abandon guard.** A request goes out only for a comment of at least 5, or a confirmed reason of at least 10, UTF-16 code units (JavaScript's `.length`), counted after trimming.
- **Draft auto-save and restore** of the work-log modal in local storage.

Modules:

| module | file | models |
|---|---|---|
| `Wrappers` | wrappers.dfy | `Option` |
| `Decimal` | decimal.dfy | decimal numerals (`String(n)`) and their value |
| `Text` | text.dfy | JavaScript `trim`, `.length` in UTF-16 code units, `replace` of one character |
| `Timer` | timer.dfy | the timer as a state machine, and the class `ElapsedTimer` that updates it in place |
| `TimerDisplay` | display.dfy | `updateTimerDisplay`'s text, and a parser that reads it back |
| `WorkLog` | worklog.dfy | the form, its live and submit validation, and the submit decision |
| `HtmlEscape` | escape.dfy | `escapeHtml`, and a decoder that inverts it |
| `Actions` | actions.dfy | the comment and abandon handlers up to the request they issue |
| `Draft` | draft.dfy | `saveDraft`/`loadDraft` over a storage map, and the modal as a class |

Two behaviours of the code worth knowing before reading the model:

- `blockers_encountered` is trimmed in the posted payload (scripts.js:158), like the five checked fields.
- The time-spent message says "between 0.1 and 24 hours", but the rule rejects only NaN, values `<= 0` and values `> 24`. So 0.05 is accepted (`WorkLog.TimeSpentRulesAgree`).

## Model

| member | source | states |
|---|---|---|
| Timer.Step | scripts.js:13-50 | only an interval tick moves the counter, and by exactly one; afterwards the timer runs exactly when the event was Start or a tick |
| Timer.RunSeconds | scripts.js:13-50 | after any admissible sequence of clicks and ticks, the counter has grown by exactly the number of ticks: Start, Pause and Stop never change or reset it |
| Timer.RunRunning | scripts.js:13-50 | after a non-empty run the timer is running exactly when the last event was Start or a tick |
| Timer.RunAppend | scripts.js:13-50 | running two event sequences one after the other is running their concatenation |
| Timer.TicksWhileRunning | scripts.js:20-23 | a running timer accepts any number n of ticks and ends n seconds further on, still running |
| Timer.StopThenStart | scripts.js:13-50 | in any state, Stop followed by Start keeps the count and leaves the timer running |
| Timer.StopThenStartResumes | scripts.js:13-50 | from a running timer, n ticks then Stop and Start resume from the count held at Stop, with the timer running |
| Timer.ElapsedTimer.constructor | scripts.js:4-9 | a new timer holds 9000 seconds and is not running |
| Timer.ElapsedTimer.Start | scripts.js:13-27 | Start leaves the count unchanged and the timer running; it is the Start transition of the state machine |
| Timer.ElapsedTimer.Pause | scripts.js:30-39 | Pause leaves the count unchanged and the timer stopped |
| Timer.ElapsedTimer.Stop | scripts.js:42-50 | Stop stops the timer in any state and keeps the count |
| Timer.ElapsedTimer.Tick | scripts.js:20-23 | the interval callback, callable only while running, adds exactly one second |
| Timer.StartStopResume | scripts.js:4-50 | from a fresh timer, Start, three ticks, Stop and Start leave 9003 seconds and the timer running |
| TimerDisplay.Components | scripts.js:54-56 | minutes and seconds are below 60, and hours·3600 + minutes·60 + seconds is the count |
| TimerDisplay.ComponentsUnique | scripts.js:54-56 | these are the only such components of the count |
| TimerDisplay.PadStart | scripts.js:58-61 | `padStart` keeps the string as its suffix and fills only on the left up to the width |
| TimerDisplay.Pad2Digits | scripts.js:58-61 | a padded component is all digits, at least two of them, and its decimal value is the component |
| TimerDisplay.Pad2 | scripts.js:59-61 | `String(x).padStart(2, '0')`: the numeral of a component, with a leading '0' when it has one digit |
| TimerDisplay.Format | scripts.js:53-63 | the text `updateTimerDisplay` writes: the three components, each padded to two digits, joined by ':' |
| TimerDisplay.FormatRoundTrip | scripts.js:53-61 | the display is at least 8 characters and reads back to exactly the count |
| TimerDisplay.FormatInitial | scripts.js:9-10 | the initial 9000 seconds show as "02:30:00" |
| TimerDisplay.FormatMixed | scripts.js:53-61 | 3661 seconds show as "01:01:01" |
| TimerDisplay.FormatZero | scripts.js:53-61 | 0 seconds show as "00:00:00" |
| Decimal.FromNat | scripts.js:58-61 | `String(n)` is a non-empty numeral without a leading zero (except for 0) whose value is n |
| Decimal.FromNatInjective | scripts.js:58-61 | different numbers give different numerals |
| Decimal.LeadingZerosIgnored | scripts.js:58-61 | the zeros `padStart` puts in front do not change a numeral's value |
| Text.Trim | scripts.js:117 | JavaScript's `trim`: the string without its leading and trailing white space and line terminators |
| Text.Utf16Length | scripts.js:83 | JavaScript's `.length`: UTF-16 code units, two for a character above U+FFFF |
| Text.TrimStartSpec | scripts.js:117 | `trimStart` drops exactly the leading whitespace |
| Text.TrimEndSpec | scripts.js:117 | `trimEnd` drops exactly the trailing whitespace |
| Text.TrimIsWindow | scripts.js:117 | the trimmed value is a window of the input with only whitespace outside it, and it starts and ends with non-whitespace |
| Text.TrimIdempotent | scripts.js:117 | trimming twice is trimming once |
| Text.TrimShortens | scripts.js:117 | trimming never makes a value longer in UTF-16 code units |
| Text.Utf16LengthBounds | scripts.js:83 | `.length` lies between the number of characters and twice that |
| Text.Utf16LengthBmp | scripts.js:83 | for text in the Basic Multilingual Plane, `.length` is the number of characters |
| Text.ReplaceAll | scripts.js:120 | `replace(/_/g, ' ')` keeps the length and replaces exactly the '_' characters |
| WorkLog.Label | scripts.js:120 | a field's label has the id's length and contains no '_' |
| WorkLog.ElementId | scripts.js:72-78 | the ids of the `formFields` table; with `FormFields` (work_description 100, files_changed 20, solution_approach 50, testing_done 50, testing_instructions 50) it is the table |
| WorkLog.Greater | scripts.js:100 | JavaScript's `>` of the parsed number against a constant: false for NaN, true for +Infinity |
| WorkLog.AtMost | scripts.js:127 | JavaScript's `<=` of the parsed number against a constant: false for NaN, true for -Infinity |
| WorkLog.Counter | scripts.js:83-84 | the `_count` text: the untrimmed value's `.length` |
| WorkLog.LiveFieldValid | scripts.js:81-95 | the live marker: valid when the untrimmed length reaches the field's minimum |
| WorkLog.LiveTimeSpentValid | scripts.js:98-105 | the live time-spent rule `value > 0 && value <= 24` with JavaScript comparisons, false for NaN |
| WorkLog.Violates | scripts.js:117-118 | the submit rule: the trimmed value is shorter than the minimum |
| WorkLog.TimeSpentRejected | scripts.js:126-127 | the submit time-spent rule `isNaN(t) \|\| t <= 0 \|\| t > 24` |
| WorkLog.FieldMessage | scripts.js:120 | the message of a short field: its label, then "must be at least", its minimum and "characters" |
| WorkLog.SubmitErrors | scripts.js:112-131 | the error list: one message per violating field in table order, then the time-spent message if that rule fails |
| WorkLog.Payload | scripts.js:150-160 | the posted form data: each of the six text fields reaches the server empty or with non-whitespace at both ends; time spent is sent as typed |
| WorkLog.TimeSpentRulesAgree | scripts.js:98-131 | the live rule and the submit rule accept exactly the same values, namely the finite numbers in (0, 24] |
| WorkLog.Violations | scripts.js:115-122 | the test of scripts.js:118 applied across the table, keeping the fields that fail it |
| WorkLog.ViolationsExactly | scripts.js:115-122 | the fields reported are exactly the table fields too short after trimming, in table order |
| WorkLog.ValidateSubmission | scripts.js:112-131 | the loop produces exactly the specified error list, and `isValid` holds exactly when that list is empty |
| WorkLog.SubmitErrorsEmpty | scripts.js:112-133 | the submission passes exactly when every field meets its minimum after trimming and time spent passes its rule |
| WorkLog.SubmitErrorsShape | scripts.js:115-131 | the list has one message per violating field plus one for time spent if rejected; a field's message is listed exactly when the field violates; the time-spent message is listed exactly when that rule fails |
| WorkLog.FieldMessageInjective | scripts.js:72-122 | two table fields with the same message are the same field |
| WorkLog.FieldMessageNotTimeSpent | scripts.js:115-131 | no field message reads as the time-spent message |
| WorkLog.SubmitAcceptanceImpliesLiveValid | scripts.js:81-122 | a field accepted at submit time is also marked valid by the live counter |
| WorkLog.LiveValidDoesNotImplySubmitValid | scripts.js:81-122 | the converse fails: 100 spaces pass the live marker and are rejected on submit |
| WorkLog.SubmitWorkLog | scripts.js:112-163 | a request is issued exactly when the error list is empty, carrying the trimmed payload; otherwise all errors are shown together |
| WorkLog.SentPayloadMeetsMinimums | scripts.js:133-160 | whenever a request is sent, every checked text field of the posted payload meets its minimum, and time spent is a finite number in (0, 24] |
| HtmlEscape.Escape | scripts.js:446-455 | `escapeHtml`: every reserved character replaced by its reference, every other character kept, in order |
| HtmlEscape.EscapeChar | scripts.js:447-453 | each reserved character becomes a reference starting with '&'; every other character is kept |
| HtmlEscape.EscapeHasNoMarkup | scripts.js:446-455 | the escaped text is never shorter and contains no '<', '>', '"' or '\'' |
| HtmlEscape.UnescapeEscape | scripts.js:446-455 | decoding the escaped text gives back the original exactly |
| HtmlEscape.EscapeAppend | scripts.js:454 | escaping works per character: escaping a concatenation concatenates the escapes |
| HtmlEscape.EscapePlainText | scripts.js:454 | text without reserved characters is left unchanged |
| HtmlEscape.AmpersandsStartReferences | scripts.js:446-455 | every '&' in the output begins one of the five references, so the output contains no accidental entity |
| HtmlEscape.TagExample | scripts.js:446-455 | `<b>&"'</b>` escapes to `&lt;b&gt;&amp;&quot;&#039;&lt;/b&gt;` |
| Actions.CommentRequest | scripts.js:279-302 | the comment handler: trims the text and posts it with issue id and token only when it has at least 5 characters |
| Actions.DisplayedComment | scripts.js:320 | a posted comment appears on the page as its escaped text |
| Actions.CommentGuard | scripts.js:279-289 | a comment request is issued exactly when the trimmed text has at least 5 characters, and it carries that trimmed text |
| Actions.PaddedShortComment | scripts.js:279-289 | "   abcd   " issues no request |
| Actions.TrimPadded | scripts.js:279 | whitespace around a text with non-whitespace ends is exactly what `trim` removes |
| Actions.TrimBetween | scripts.js:279 | trimming a string that is whitespace around a window with non-whitespace ends yields that window |
| Actions.DisplayedCommentFaithful | scripts.js:309-320 | the comment shown on the page decodes back to the posted text and contains no markup character |
| Actions.DialogValue | scripts.js:214-232 | the abandon dialog hands its validator and its result the trimmed text of its input (SweetAlert2's `inputAutoTrim`, on by default) |
| Actions.ReasonValidator | scripts.js:225-229 | a message for an empty reason or one under 10 characters once trimmed, nothing otherwise |
| Actions.AbandonRequest | scripts.js:230-242 | a confirmed dialog whose value the validator accepts posts that value as the reason, with issue id and token; otherwise no request |
| Actions.ValidatorIgnoresAutoTrim | scripts.js:225-232 | the dialog's trimming changes no verdict of the validator |
| Actions.AbandonGuard | scripts.js:225-242 | an abandon request is issued exactly when the user confirms a reason of at least 10 characters after trimming; the reason sent is the trimmed text, with no whitespace at either end |
| Actions.AbandonPadded | scripts.js:225-242 | a confirmed reason of at least 10 code units surrounded by whitespace is posted without that whitespace |
| Actions.PaddedReasonPostedTrimmed | scripts.js:225-242 | "  the reason is long  " is posted as "the reason is long" |
| Actions.NineCharacterReasonRefused | scripts.js:225-229 | "too short" gets the validator's message and issues no request |
| Draft.DraftKey | scripts.js:390-395 | the storage key of an issue's draft; `DraftKey(47)` is `work_log_draft_47` |
| Draft.DraftKeyOfPage | scripts.js:390 | the page's issue 47 stores its draft under `work_log_draft_47` |
| Draft.DraftKeyInjective | scripts.js:390-395 | different issues have different storage keys |
| Draft.DraftStorage.constructor | scripts.js:390 | a new storage holds no drafts |
| Draft.DraftStorage.Get | scripts.js:395 | `localStorage.getItem`: the stored draft under a key, or none |
| Draft.DraftStorage.SetItem | scripts.js:390 | `setItem` overwrites one key and leaves every other key alone |
| Draft.WorkLogModal.constructor | scripts.js:379-388 | a new modal has all seven inputs empty |
| Draft.WorkLogModal.Snapshot | scripts.js:380-388 | the `draft` object: the seven input values, read untrimmed |
| Draft.WorkLogModal.SaveDraft | scripts.js:379-392 | saving stores the seven current values, unvalidated, under the issue's key and changes nothing else |
| Draft.WorkLogModal.LoadDraft | scripts.js:394-397 | at modal open, a draft is read exactly when the issue's key is stored, and it is the stored form |
| Draft.WorkLogModal.ApplyDraft | scripts.js:408-416 | Restore sets all seven inputs to the draft read at open |
| Draft.RestoreAfterAutoSave | scripts.js:364-416 | an auto-save that fires while the Restore dialog is open overwrites storage with the inputs as they stood, and Restore still applies the draft read at open, so inputs and storage disagree |
| Draft.SaveEditRestore | scripts.js:379-422 | saving, editing, saving another issue's draft and restoring brings back exactly the values held at save time |
| Draft.SaveKeepsOtherIssues | scripts.js:379-392 | saving one issue's draft keeps every other issue's draft |

## Left out

- DOM access, CSS classes, button enabling and the `loading` state: jQuery rendering without logic. Each input's value becomes a field or parameter.
- SweetAlert dialogs and toasts: only their outcome enters the model. That is the confirm flag of the abandon dialog and the Restore choice of the draft dialog.
- `$.ajax` calls, their endpoints, the server's responses, reloads and redirects: network I/O. Each handler is modelled up to the payload it posts, or the decision to post none.
- The 60-second update poll (scripts.js:459-477): network I/O whose only effect is a toast.
- Timing of `setInterval`: one tick is an `IntervalTick` event. The interval handle `timerInterval` is not modelled, because an interval exists exactly while `running` holds.
- The decimal hours text `(timerSeconds / 3600).toFixed(1)` (scripts.js:66-67): floating-point formatting.
- `parseFloat`: its result is a parameter of the JavaScript number type (NaN, a finite real, or an infinity). Floating-point rounding is not modelled.
- `JSON.stringify`/`JSON.parse` of the draft: the storage holds the form values directly. The JSON round trip of seven strings is taken as lossless.
- The live markers are not refreshed for `time_spent` and `blockers_encountered` on restore, since the page fires no `input` event for them. The model tracks only values, not markers.
- The hardcoded issue 47 in the comment, abandon and draft code: modelled as a parameter (`work_log_draft_47` is `DraftKey(47)`).
- `response.author_name`, inserted into the page unescaped: server data outside this model.
- Lightbox options, responsive tables and the modal-close log (scripts.js:510-519): presentation only.
- Keyboard shortcuts (scripts.js:481-495): they only re-dispatch to the modelled comment handler or close the modal.
- `timerSeconds` is a JavaScript double; the model's count is an unbounded `nat`. `timerSeconds++` would stop growing at 2^53 and `String(hours)` would switch to exponent notation at 10^21; both lie hundreds of millions of years of ticking away.
- Actions.DialogValue: the abandon dialog's trimming is SweetAlert2's documented default (`inputAutoTrim`), a library outside this model; the page does not switch it off.
- `Text.IsWhitespace`: JavaScript's `trim` set (white space and line terminators) is listed code point by code point.
