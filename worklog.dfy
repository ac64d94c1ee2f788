/** The work-log form: its field table (scripts.js:72-78), the live
    per-field and time-spent rules (scripts.js:81-105), the submit-time pass
    that collects every violation in order (scripts.js:112-133), and the
    decision to issue the submit request with the trimmed payload
    (scripts.js:145-160). */
module WorkLog {
  import opened Text
  import Decimal

  /** The five text areas that carry a minimum length. */
  datatype FieldId = WorkDescription | FilesChanged | SolutionApproach | TestingDone | TestingInstructions

  /** The element id of each text area, as the table spells it. */
  function ElementId(id: FieldId): string {
    match id
    case WorkDescription => "work_description"
    case FilesChanged => "files_changed"
    case SolutionApproach => "solution_approach"
    case TestingDone => "testing_done"
    case TestingInstructions => "testing_instructions"
  }

  datatype FormField = FormField(id: FieldId, minLength: nat)

  /** The `formFields` table, in its order. */
  const FormFields: seq<FormField> := [
    FormField(WorkDescription, 100),
    FormField(FilesChanged, 20),
    FormField(SolutionApproach, 50),
    FormField(TestingDone, 50),
    FormField(TestingInstructions, 50)
  ]

  /** The current values of the seven inputs of the work-log modal, as
      `.val()` reads them. The same seven values make up a saved draft. */
  datatype WorkLogForm = WorkLogForm(
    workDescription: string,
    filesChanged: string,
    solutionApproach: string,
    testingDone: string,
    testingInstructions: string,
    blockersEncountered: string,
    timeSpent: string)

  function FieldValue(form: WorkLogForm, id: FieldId): string {
    match id
    case WorkDescription => form.workDescription
    case FilesChanged => form.filesChanged
    case SolutionApproach => form.solutionApproach
    case TestingDone => form.testingDone
    case TestingInstructions => form.testingInstructions
  }

  /** A JavaScript number, as `parseFloat` returns it: NaN for text that does
      not start with a number, and the two infinities for "Infinity". */
  datatype Number = NaN | Finite(value: real) | PosInfinity | NegInfinity

  /** JavaScript's `n > r` for a finite `r`; every comparison with NaN is false. */
  predicate Greater(n: Number, r: real) {
    match n
    case NaN => false
    case Finite(v) => v > r
    case PosInfinity => true
    case NegInfinity => false
  }

  /** JavaScript's `n <= r` for a finite `r`. */
  predicate AtMost(n: Number, r: real) {
    match n
    case NaN => false
    case Finite(v) => v <= r
    case PosInfinity => false
    case NegInfinity => true
  }

  // ----- Live feedback (the `input` handlers) -----

  /** The character counter shows JavaScript's length of the raw value. */
  function Counter(value: string): nat {
    Utf16Length(value)
  }

  /** The live marker of a text area: valid when the untrimmed length reaches
      the field's minimum (scripts.js:83-93). */
  predicate LiveFieldValid(field: FormField, value: string) {
    Counter(value) >= field.minLength
  }

  /** The live time-spent rule `value > 0 && value <= 24` (scripts.js:100). */
  predicate LiveTimeSpentValid(t: Number) {
    Greater(t, 0.0) && AtMost(t, 24.0)
  }

  // ----- Submit-time validation -----

  /** The submit-time field rule: the trimmed value is shorter than the minimum. */
  predicate Violates(field: FormField, form: WorkLogForm) {
    Utf16Length(Trim(FieldValue(form, field.id))) < field.minLength
  }

  /** The submit-time time-spent rule `isNaN(t) || t <= 0 || t > 24`
      (scripts.js:127). */
  predicate TimeSpentRejected(t: Number) {
    t == NaN || AtMost(t, 0.0) || Greater(t, 24.0)
  }

  /** The live and the submit rule accept exactly the same values, namely the
      finite numbers in (0, 24]: 24 passes, 0, anything above 24, the
      infinities and NaN fail. */
  lemma TimeSpentRulesAgree(t: Number)
    ensures LiveTimeSpentValid(t) <==> !TimeSpentRejected(t)
    ensures LiveTimeSpentValid(t) <==> t.Finite? && 0.0 < t.value <= 24.0
  {
  }

  /** The fields of `fields` that violate their rule, in table order. */
  function Violations(fields: seq<FormField>, form: WorkLogForm): seq<FormField> {
    if fields == [] then []
    else if Violates(fields[0], form) then [fields[0]] + Violations(fields[1..], form)
    else Violations(fields[1..], form)
  }

  /** `a` is `b` with some elements left out, the rest kept in order. */
  predicate IsSubsequence<T(==)>(a: seq<T>, b: seq<T>) {
    if b == [] then a == []
    else (a != [] && a[0] == b[0] && IsSubsequence(a[1..], b[1..])) || IsSubsequence(a, b[1..])
  }

  /** The violations are exactly the violating fields, kept in table order. */
  lemma {:induction false} ViolationsExactly(fields: seq<FormField>, form: WorkLogForm)
    ensures forall f :: f in Violations(fields, form) <==> f in fields && Violates(f, form)
    ensures IsSubsequence(Violations(fields, form), fields)
    decreases |fields|
  {
    if fields != [] {
      ViolationsExactly(fields[1..], form);
      var rest := Violations(fields[1..], form);
      assert fields == [fields[0]] + fields[1..];
      if Violates(fields[0], form) {
        assert ([fields[0]] + rest)[1..] == rest;
      }
    }
  }

  /** The label of a field in its message: the id with every '_' replaced by
      a space. */
  function Label(id: FieldId): (r: string)
    ensures |r| == |ElementId(id)| && '_' !in r
  {
    ReplaceAll(ElementId(id), '_', ' ')
  }

  function FieldMessage(field: FormField): string {
    Label(field.id) + " must be at least " + Decimal.FromNat(field.minLength) + " characters"
  }

  const TimeSpentMessage: string := "Time spent must be between 0.1 and 24 hours"

  function Messages(fields: seq<FormField>): (r: seq<string>)
    ensures |r| == |fields|
    ensures forall k :: 0 <= k < |fields| ==> r[k] == FieldMessage(fields[k])
  {
    if fields == [] then [] else [FieldMessage(fields[0])] + Messages(fields[1..])
  }

  lemma MessagesAppend(fields: seq<FormField>, f: FormField)
    ensures Messages(fields + [f]) == Messages(fields) + [FieldMessage(f)]
  {
    assert forall k :: 0 <= k < |fields| ==> (fields + [f])[k] == fields[k];
  }

  /** The error list of the submit handler: one message per violating field of
      the table, in table order, then the time-spent message if that rule fails. */
  function SubmitErrors(form: WorkLogForm, t: Number): seq<string> {
    Messages(Violations(FormFields, form)) + (if TimeSpentRejected(t) then [TimeSpentMessage] else [])
  }

  lemma {:induction false} ViolationsAppend(fields: seq<FormField>, f: FormField, form: WorkLogForm)
    ensures Violations(fields + [f], form)
      == Violations(fields, form) + (if Violates(f, form) then [f] else [])
    decreases |fields|
  {
    if fields == [] {
      assert [] + [f] == [f];
    } else {
      assert (fields + [f])[1..] == fields[1..] + [f];
      ViolationsAppend(fields[1..], f, form);
    }
  }

  /** Visiting table entry `i` extends the error list by that entry's
      message exactly when the entry violates its rule. */
  lemma ValidationStep(i: nat, form: WorkLogForm)
    requires i < |FormFields|
    ensures Messages(Violations(FormFields[..i + 1], form))
      == Messages(Violations(FormFields[..i], form))
         + (if Violates(FormFields[i], form) then [FieldMessage(FormFields[i])] else [])
  {
    var field := FormFields[i];
    assert FormFields[..i + 1] == FormFields[..i] + [field];
    ViolationsAppend(FormFields[..i], field, form);
    MessagesAppend(Violations(FormFields[..i], form), field);
  }

  /** The submit pass: walks the table as the `forEach` does, pushing a
      message and clearing `isValid` for each field that is too short, then
      checks time spent. The result is exactly the specified error list, and
      `isValid` holds exactly when that list is empty. */
  method ValidateSubmission(form: WorkLogForm, t: Number) returns (isValid: bool, errors: seq<string>)
    ensures errors == SubmitErrors(form, t)
    ensures isValid <==> errors == []
  {
    isValid := true;
    errors := [];
    for i := 0 to |FormFields|
      invariant errors == Messages(Violations(FormFields[..i], form))
      invariant isValid <==> errors == []
    {
      var field := FormFields[i];
      ValidationStep(i, form);
      var trimmed := Trim(FieldValue(form, field.id));
      if Utf16Length(trimmed) < field.minLength {
        isValid := false;
        errors := errors + [FieldMessage(field)];
      }
    }
    assert FormFields[..|FormFields|] == FormFields;
    if t == NaN || AtMost(t, 0.0) || Greater(t, 24.0) {
      isValid := false;
      errors := errors + [TimeSpentMessage];
    }
  }

  /** The submission is valid exactly when no field of the table is too short
      after trimming and time spent passes its rule. */
  lemma SubmitErrorsEmpty(form: WorkLogForm, t: Number)
    ensures SubmitErrors(form, t) == []
      <==> (forall f :: f in FormFields ==> !Violates(f, form)) && !TimeSpentRejected(t)
  {
    var v := Violations(FormFields, form);
    ViolationsExactly(FormFields, form);
    if v != [] {
      assert v[0] in v;
    }
  }

  /** Every message belongs to one source: one message for each violating
      field, and the time-spent message exactly when that rule fails. */
  lemma SubmitErrorsShape(form: WorkLogForm, t: Number)
    ensures |SubmitErrors(form, t)| == |Violations(FormFields, form)| + (if TimeSpentRejected(t) then 1 else 0)
    ensures forall f :: f in FormFields ==> (Violates(f, form) <==> FieldMessage(f) in SubmitErrors(form, t))
    ensures TimeSpentRejected(t) <==> TimeSpentMessage in SubmitErrors(form, t)
  {
    forall f | f in FormFields
      ensures Violates(f, form) <==> FieldMessage(f) in SubmitErrors(form, t)
    {
      FieldInErrors(f, form, t);
    }
    TimeSpentNotInMessages(Violations(FormFields, form));
  }

  lemma FieldInErrors(f: FormField, form: WorkLogForm, t: Number)
    requires f in FormFields
    ensures Violates(f, form) <==> FieldMessage(f) in SubmitErrors(form, t)
  {
    var v := Violations(FormFields, form);
    var m, tail := FieldMessage(f), if TimeSpentRejected(t) then [TimeSpentMessage] else [];
    ViolationsExactly(FormFields, form);
    MessageInMessages(f, v);
    FieldMessageNotTimeSpent(f);
    assert m !in tail;
    InConcat(m, Messages(v), tail);
  }

  lemma InConcat(x: string, a: seq<string>, b: seq<string>)
    ensures x in a + b <==> x in a || x in b
  {
    if x in a + b {
      var k :| 0 <= k < |a + b| && (a + b)[k] == x;
      if k >= |a| { assert b[k - |a|] == x; }
    }
    if x in b {
      var k :| 0 <= k < |b| && b[k] == x;
      assert (a + b)[|a| + k] == x;
    }
  }

  /** A table field's message is among the messages of some table fields
      exactly when the field is among them. */
  lemma MessageInMessages(f: FormField, fs: seq<FormField>)
    requires f in FormFields && forall g :: g in fs ==> g in FormFields
    ensures FieldMessage(f) in Messages(fs) <==> f in fs
  {
    var ms := Messages(fs);
    if FieldMessage(f) in ms {
      var k :| 0 <= k < |ms| && ms[k] == FieldMessage(f);
      FieldMessageInjective(f, fs[k]);
    }
    if f in fs {
      var k :| 0 <= k < |fs| && fs[k] == f;
      assert ms[k] == FieldMessage(f);
    }
  }

  lemma TimeSpentNotInMessages(fs: seq<FormField>)
    ensures TimeSpentMessage !in Messages(fs)
  {
    var ms := Messages(fs);
    if TimeSpentMessage in ms {
      var k :| 0 <= k < |ms| && ms[k] == TimeSpentMessage;
      FieldMessageNotTimeSpent(fs[k]);
    }
  }

  /** A message starts with the first letter of the field's id and is 29
      characters longer than the id and the number together. */
  lemma MessageShape(f: FormField)
    ensures |FieldMessage(f)| == MessageKey(f).1 + 29
    ensures FieldMessage(f)[0] == MessageKey(f).0
  {
    var name, numeral := Label(f.id), Decimal.FromNat(f.minLength);
    LabelHead(f.id);
    MessageSplit(name, numeral);
  }

  lemma MessageSplit(name: string, numeral: string)
    requires |name| > 0
    ensures |name + " must be at least " + numeral + " characters"| == |name| + |numeral| + 29
    ensures (name + " must be at least " + numeral + " characters")[0] == name[0]
  {
  }

  lemma NumeralLengths()
    ensures |Decimal.FromNat(100)| == 3 && |Decimal.FromNat(50)| == 2 && |Decimal.FromNat(20)| == 2
  {
    assert Decimal.FromNat(10) == Decimal.FromNat(1) + [Decimal.DigitChar(0)];
  }

  /** Two fields of the table with the same message are the same field: the
      messages differ in their first character or in their length. */
  lemma FieldMessageInjective(f: FormField, g: FormField)
    requires f in FormFields && g in FormFields
    requires FieldMessage(f) == FieldMessage(g)
    ensures f == g
  {
    if f != g {
      MessageShape(f);
      MessageShape(g);
      KeysDistinct(f, g);
      SameKey(FieldMessage(f), FieldMessage(g), MessageKey(f), MessageKey(g));
    }
  }

  /** What tells the messages of the table apart: the first letter of the
      id and the combined length of id and minimum. */
  function MessageKey(f: FormField): (char, nat) {
    (ElementId(f.id)[0], |ElementId(f.id)| + |Decimal.FromNat(f.minLength)|)
  }

  lemma SameKey(a: string, b: string, ka: (char, nat), kb: (char, nat))
    requires a == b && |a| > 0
    requires |a| == ka.1 + 29 && a[0] == ka.0 && |b| == kb.1 + 29 && b[0] == kb.0
    ensures ka == kb
  {
  }

  lemma KeysDistinct(f: FormField, g: FormField)
    requires f in FormFields && g in FormFields && f != g
    ensures MessageKey(f) != MessageKey(g)
  {
    var i :| 0 <= i < |FormFields| && FormFields[i] == f;
    var j :| 0 <= j < |FormFields| && FormFields[j] == g;
    KeysDistinctAt(i, j);
  }

  lemma KeysDistinctAt(i: nat, j: nat)
    requires i < |FormFields| && j < |FormFields| && i != j
    ensures MessageKey(FormFields[i]) != MessageKey(FormFields[j])
  {
    KeyAt(i);
    KeyAt(j);
    var keys := TableKeys();
    if i < j {
      assert keys[i] != keys[j];
    } else {
      assert keys[j] != keys[i];
    }
  }

  /** The keys of the table, entry by entry; no two of them are equal. */
  function TableKeys(): (keys: seq<(char, nat)>)
    ensures |keys| == |FormFields|
    ensures forall i, j :: 0 <= i < j < |keys| ==> keys[i] != keys[j]
  {
    [('w', 19), ('f', 15), ('s', 19), ('t', 14), ('t', 22)]
  }

  lemma KeyAt(i: nat)
    requires i < |FormFields|
    ensures MessageKey(FormFields[i]) == TableKeys()[i]
  {
    NumeralLengths();
  }

  /** A label starts with the id's first letter. */
  lemma LabelHead(id: FieldId)
    ensures |Label(id)| > 0 && Label(id)[0] == ElementId(id)[0]
  {
    var e := ElementId(id);
    assert |e| > 0 && e[0] != '_';
  }

  /** No field message reads as the time-spent message. */
  lemma FieldMessageNotTimeSpent(f: FormField)
    ensures FieldMessage(f) != TimeSpentMessage
  {
    var m := FieldMessage(f);
    assert m[|m| - 3] == 'e';
    assert TimeSpentMessage[|TimeSpentMessage| - 3] == 'u';
  }

  /** A field accepted at submit time shows as valid in the live marker too,
      since trimming never lengthens the value. */
  lemma SubmitAcceptanceImpliesLiveValid(f: FormField, form: WorkLogForm)
    requires !Violates(f, form)
    ensures LiveFieldValid(f, FieldValue(form, f.id))
  {
    TrimShortens(FieldValue(form, f.id));
  }

  /** The converse fails: the live marker counts surrounding whitespace, the
      submit pass does not, so 100 spaces in the work description are marked
      valid while typing and rejected on submit. */
  lemma LiveValidDoesNotImplySubmitValid(form: WorkLogForm)
    requires form.workDescription == Decimal.Repeat(' ', 100)
    ensures LiveFieldValid(FormFields[0], form.workDescription)
    ensures Violates(FormFields[0], form)
  {
    var s := form.workDescription;
    Utf16LengthBmp(s);
    var lo := TrimIsWindow(s);
  }

  // ----- The submit request -----

  /** The form data posted to the server (scripts.js:150-160): text fields,
      the blockers included, are trimmed; time spent is sent as typed. */
  datatype WorkLogPayload = WorkLogPayload(
    csrfToken: string,
    issueId: string,
    workDescription: string,
    filesChanged: string,
    solutionApproach: string,
    testingDone: string,
    testingInstructions: string,
    blockersEncountered: string,
    timeSpent: string)

  /** What a click on Submit leads to: the error dialog and no request, or
      exactly one request with this payload. */
  datatype SubmitDecision = ShowErrors(errors: seq<string>) | SendRequest(payload: WorkLogPayload)

  /** Every text field of the payload reaches the server without leading or
      trailing whitespace; time spent is the raw input text. */
  function Payload(form: WorkLogForm, csrfToken: string, issueId: string): (p: WorkLogPayload)
    ensures Trimmed(p.workDescription) && Trimmed(p.filesChanged) && Trimmed(p.solutionApproach)
    ensures Trimmed(p.testingDone) && Trimmed(p.testingInstructions) && Trimmed(p.blockersEncountered)
  {
    TrimIsTrimmed(form.workDescription);
    TrimIsTrimmed(form.filesChanged);
    TrimIsTrimmed(form.solutionApproach);
    TrimIsTrimmed(form.testingDone);
    TrimIsTrimmed(form.testingInstructions);
    TrimIsTrimmed(form.blockersEncountered);
    WorkLogPayload(csrfToken, issueId,
      Trim(form.workDescription), Trim(form.filesChanged), Trim(form.solutionApproach),
      Trim(form.testingDone), Trim(form.testingInstructions), Trim(form.blockersEncountered),
      form.timeSpent)
  }

  /** The payload field that carries a checked text area. */
  function PayloadField(p: WorkLogPayload, id: FieldId): string {
    match id
    case WorkDescription => p.workDescription
    case FilesChanged => p.filesChanged
    case SolutionApproach => p.solutionApproach
    case TestingDone => p.testingDone
    case TestingInstructions => p.testingInstructions
  }

  /** The submit handler: a request is issued exactly when the error list is
      empty; otherwise all errors are reported together. `timeSpent` is what
      `parseFloat` made of the time-spent input. */
  method SubmitWorkLog(form: WorkLogForm, timeSpent: Number, csrfToken: string, issueId: string)
    returns (decision: SubmitDecision)
    ensures decision.SendRequest? <==> SubmitErrors(form, timeSpent) == []
    ensures decision.ShowErrors? ==> decision.errors == SubmitErrors(form, timeSpent)
    ensures decision.SendRequest? ==> decision.payload == Payload(form, csrfToken, issueId)
  {
    var isValid, errors := ValidateSubmission(form, timeSpent);
    if !isValid {
      return ShowErrors(errors);
    }
    decision := SendRequest(Payload(form, csrfToken, issueId));
  }

  /** Every payload field that was checked reaches the server long enough: a
      request is only sent when each posted text meets its minimum, and time
      spent then parses to a finite number in (0, 24]. */
  lemma SentPayloadMeetsMinimums(form: WorkLogForm, t: Number, csrfToken: string, issueId: string)
    requires SubmitErrors(form, t) == []
    ensures forall f :: f in FormFields ==>
      Utf16Length(PayloadField(Payload(form, csrfToken, issueId), f.id)) >= f.minLength
    ensures t.Finite? && 0.0 < t.value <= 24.0
  {
    SubmitErrorsEmpty(form, t);
    var p := Payload(form, csrfToken, issueId);
    forall f | f in FormFields
      ensures Utf16Length(PayloadField(p, f.id)) >= f.minLength
    {
      assert PayloadField(p, f.id) == Trim(FieldValue(form, f.id));
    }
  }
}
