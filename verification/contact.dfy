/** The contact-form script of the two language editions of the site
    (ar/contact.js and en/contact.js). Both editions share every rule; they
    differ only in the alphabet of the name pattern and in the texts shown, so
    one model parameterised by `Locale` covers both. */
module Contact {
  import opened Base
  import opened JsText

  datatype FieldKind = NameField | EmailField | MessageField

  /** The key under which `patterns` and `errorMessages` know a field. */
  function KindOf(fieldName: string): (k: Option<FieldKind>)
    ensures k == Some(NameField) <==> fieldName == "name"
    ensures k == Some(EmailField) <==> fieldName == "email"
    ensures k == Some(MessageField) <==> fieldName == "message"
  {
    if fieldName == "name" then Some(NameField)
    else if fieldName == "email" then Some(EmailField)
    else if fieldName == "message" then Some(MessageField)
    else None
  }

  // ---------------------------------------------------------------------
  // The three validation patterns, restated as predicates on code units.
  // ---------------------------------------------------------------------

  const AT_SIGN: CodeUnit := 0x40
  const FULL_STOP: CodeUnit := 0x2E

  predicate IsAsciiLetter(c: CodeUnit) {
    0x41 <= c <= 0x5A || 0x61 <= c <= 0x7A
  }

  /** The Unicode Arabic block, U+0600 to U+06FF. */
  predicate IsArabicBlock(c: CodeUnit) {
    0x0600 <= c <= 0x06FF
  }

  /** The character class of the name pattern: ASCII letters and whitespace,
      and on the Arabic page also the Arabic block. */
  predicate IsNameUnit(loc: Locale, c: CodeUnit) {
    IsAsciiLetter(c) || IsWhitespace(c) || (loc == Arabic && IsArabicBlock(c))
  }

  /** The name pattern: 2 to 50 code units of the class, anchored at both ends. */
  predicate NamePattern(loc: Locale, s: JsString) {
    2 <= |s| <= 50 && forall i :: 0 <= i < |s| ==> IsNameUnit(loc, s[i])
  }

  /** A non-empty run with neither whitespace nor '@'. */
  predicate PlainRun(s: JsString) {
    |s| > 0 && forall i :: 0 <= i < |s| ==> !IsWhitespace(s[i]) && s[i] != AT_SIGN
  }

  /** The email pattern: an '@' and a later '.' cut the text into three
      plain runs. */
  predicate EmailPattern(s: JsString) {
    exists at, dot | 0 <= at < dot < |s| ::
      && s[at] == AT_SIGN && s[dot] == FULL_STOP
      && PlainRun(s[..at]) && PlainRun(s[at + 1..dot]) && PlainRun(s[dot + 1..])
  }

  /** The message pattern: 10 to 1000 code units of any kind. Under the
      pattern's `s` flag the wildcard also matches line terminators. */
  predicate MessagePattern(s: JsString) {
    10 <= |s| <= 1000
  }

  /** `patterns[kind].test(value)`. */
  predicate PatternAccepts(loc: Locale, k: FieldKind, s: JsString) {
    match k
    case NameField => NamePattern(loc, s)
    case EmailField => EmailPattern(s)
    case MessageField => MessagePattern(s)
  }

  // ---------------------------------------------------------------------
  // The e-mail rule in plain words, and its equivalence with the pattern.
  // ---------------------------------------------------------------------

  predicate NoWhitespace(s: JsString) {
    forall i :: 0 <= i < |s| ==> !IsWhitespace(s[i])
  }

  /** Position `at` holds the one and only '@' of `s`. */
  predicate SoleAtSign(s: JsString, at: nat) {
    at < |s| && s[at] == AT_SIGN && forall i :: 0 <= i < |s| && s[i] == AT_SIGN ==> i == at
  }

  /** Exactly one '@', no whitespace, a non-empty local part, and a domain with
      a '.' that is neither its first nor its last code unit. */
  predicate EmailRule(s: JsString) {
    && NoWhitespace(s)
    && exists at | 0 < at < |s| ::
         && SoleAtSign(s, at)
         && exists dot | at + 1 < dot < |s| - 1 :: s[dot] == FULL_STOP
  }

  lemma EmailPatternIffRule(s: JsString)
    ensures EmailPattern(s) <==> EmailRule(s)
  {
    if EmailPattern(s) {
      var at, dot :| 0 <= at < dot < |s| && s[at] == AT_SIGN && s[dot] == FULL_STOP
        && PlainRun(s[..at]) && PlainRun(s[at + 1..dot]) && PlainRun(s[dot + 1..]);
      RunsGiveRule(s, at, dot);
    }
    if EmailRule(s) {
      var at :| 0 < at < |s| && SoleAtSign(s, at) && exists dot | at + 1 < dot < |s| - 1 :: s[dot] == FULL_STOP;
      var dot :| at + 1 < dot < |s| - 1 && s[dot] == FULL_STOP;
      RuleGivesRuns(s, at, dot);
    }
  }

  /** Three plain runs around an '@' and a '.' make a text the rule accepts. */
  lemma RunsGiveRule(s: JsString, at: nat, dot: nat)
    requires at < dot < |s| && s[at] == AT_SIGN && s[dot] == FULL_STOP
    requires PlainRun(s[..at]) && PlainRun(s[at + 1..dot]) && PlainRun(s[dot + 1..])
    ensures EmailRule(s)
  {
    forall i | 0 <= i < |s| && i != at
      ensures !IsWhitespace(s[i]) && s[i] != AT_SIGN
    {
      if i < at {
        assert s[i] == s[..at][i];
      } else if i < dot {
        assert s[i] == s[at + 1..dot][i - at - 1];
      } else if dot < i {
        assert s[i] == s[dot + 1..][i - dot - 1];
      }
    }
    assert SoleAtSign(s, at);
    assert at + 1 < dot < |s| - 1;
  }

  /** The only '@' and an inner '.' of the domain cut a whitespace-free text
      into three plain runs. */
  lemma RuleGivesRuns(s: JsString, at: nat, dot: nat)
    requires NoWhitespace(s) && 0 < at && SoleAtSign(s, at)
    requires at + 1 < dot < |s| - 1 && s[dot] == FULL_STOP
    ensures PlainRun(s[..at]) && PlainRun(s[at + 1..dot]) && PlainRun(s[dot + 1..])
  {
  }

  // ---------------------------------------------------------------------
  // Messages.
  // ---------------------------------------------------------------------

  /** A message of the error element: `errorMessages[name]?.required` or
      `errorMessages[name]?.invalid`, for a known field or (None) with the
      generic fallback text. */
  datatype Message = Required(kind: Option<FieldKind>) | Invalid(kind: Option<FieldKind>)

  /** The texts of the two editions. */
  function MessageText(loc: Locale, m: Message): string {
    match (loc, m)
    case (Arabic, Required(Some(NameField))) => "الاسم مطلوب"
    case (Arabic, Required(Some(EmailField))) => "البريد الإلكتروني مطلوب"
    case (Arabic, Required(Some(MessageField))) => "الرسالة مطلوبة"
    case (Arabic, Required(None)) => "هذا الحقل مطلوب"
    case (Arabic, Invalid(Some(NameField))) => "يرجى إدخال اسم صحيح (2-50 حرف)"
    case (Arabic, Invalid(Some(EmailField))) => "يرجى إدخال بريد إلكتروني صحيح"
    case (Arabic, Invalid(Some(MessageField))) => "يجب أن تكون الرسالة بين 10-1000 حرف"
    case (Arabic, Invalid(None)) => "قيمة غير صحيحة"
    case (English, Required(Some(NameField))) => "Name is required"
    case (English, Required(Some(EmailField))) => "Email is required"
    case (English, Required(Some(MessageField))) => "Message is required"
    case (English, Required(None)) => "This field is required"
    case (English, Invalid(Some(NameField))) => "Please enter a valid name (2-50 characters)"
    case (English, Invalid(Some(EmailField))) => "Please enter a valid email address"
    case (English, Invalid(Some(MessageField))) => "The message must be between 10-1000 characters"
    case (English, Invalid(None)) => "Invalid value"
  }

  // ---------------------------------------------------------------------
  // validateField and showError.
  // ---------------------------------------------------------------------

  /** The two classes the script toggles on a form control. */
  datatype Classes = Classes(error: bool, valid: bool)

  /** The content of a field's `<name>-error` element: cleared, or showing a
      message. */
  datatype ErrorText = Blank | Says(message: Message)

  /** A required input or textarea of the form with the state `validateField`
      reads and writes. `errorText` is `None` when the page has no
      `<name>-error` element for the field. */
  datatype Field = Field(
    name: string,
    value: JsString,
    required: bool,
    classes: Classes,
    errorText: Option<ErrorText>)

  /** What `validateField` returns, with the field as it leaves it. */
  datatype Checked = Checked(ok: bool, field: Field)

  /** Only the validation state of the field may differ between `f` and `g`. */
  predicate SameControl(f: Field, g: Field) {
    g.name == f.name && g.value == f.value && g.required == f.required
  }

  /** `showError`: mark the field as erroneous and show the message. */
  function ShowError(f: Field, m: Message): (g: Field)
    requires f.errorText.Some?
    ensures g.classes.error && !g.classes.valid
    ensures g.errorText == Some(Says(m))
    ensures SameControl(f, g)
  {
    f.(classes := f.classes.(error := true, valid := false), errorText := Some(Says(m)))
  }

  /** `validateField`: trim the value, then apply the ladder
      required-but-empty, pattern mismatch, valid. */
  function ValidateField(loc: Locale, f: Field): (r: Checked)
    ensures f.errorText.None? ==> r == Checked(true, f)
    ensures f.errorText.Some? ==> r.field.errorText.Some?
    ensures f.errorText.Some? ==> (r.field.classes.error <==> !r.ok)
    ensures f.errorText.Some? ==> (r.field.classes.valid <==> r.ok)
    ensures f.errorText.Some? && r.ok ==> r.field.errorText == Some(Blank)
    ensures SameControl(f, r.field)
  {
    if f.errorText.None? then Checked(true, f)
    else
      var value := Trim(f.value);
      var kind := KindOf(f.name);
      var cleared := f.(classes := f.classes.(error := false), errorText := Some(Blank));
      if f.required && |value| == 0 then
        Checked(false, ShowError(cleared, Required(kind)))
      else if |value| > 0 && kind.Some? && !PatternAccepts(loc, kind.value, value) then
        Checked(false, ShowError(cleared, Invalid(kind)))
      else
        Checked(true, cleared.(classes := cleared.classes.(valid := true)))
  }

  /** The outcome of validation stated through the untrimmed value: a
      required field holding only whitespace fails with its required message;
      any other failure is a pattern mismatch of the trimmed value, reported
      with the invalid message of the field. */
  lemma ValidateFieldVerdict(loc: Locale, f: Field)
    requires f.errorText.Some?
    ensures var r := ValidateField(loc, f);
      && (f.required && AllWhitespace(f.value) ==>
            !r.ok && r.field.errorText == Some(Says(Required(KindOf(f.name)))))
      && (!f.required && AllWhitespace(f.value) ==> r.ok)
      && (!AllWhitespace(f.value) ==>
            (r.ok <==> KindOf(f.name).None? || PatternAccepts(loc, KindOf(f.name).value, Trim(f.value))))
      && (!AllWhitespace(f.value) && !r.ok ==>
            r.field.errorText == Some(Says(Invalid(KindOf(f.name)))))
  {
    TrimEmptyIff(f.value);
  }

  /** A field the pattern table does not know is valid unless it is required
      and blank, and then it shows the generic required text. */
  lemma UnknownFieldFallsBack(loc: Locale, f: Field)
    requires f.errorText.Some? && KindOf(f.name).None?
    ensures var r := ValidateField(loc, f);
      && (r.ok <==> !(f.required && AllWhitespace(f.value)))
      && (!r.ok ==> r.field.errorText == Some(Says(Required(None))))
  {
    TrimEmptyIff(f.value);
  }

  /** The generic invalid text is never shown: a pattern exists only for the
      three fields that also have their own invalid message. */
  lemma GenericInvalidNeverShown(loc: Locale, f: Field)
    ensures ValidateField(loc, f).field.errorText != Some(Says(Invalid(None)))
  {
  }

  // ---------------------------------------------------------------------
  // The three fields of the form, one by one.
  // ---------------------------------------------------------------------

  /** A required name is accepted exactly when its trimmed value has 2 to 50
      code units, each an ASCII letter, whitespace or (Arabic page only) a
      unit of the Arabic block. */
  lemma NameFieldAcceptance(loc: Locale, f: Field)
    requires f.name == "name" && f.required && f.errorText.Some?
    ensures ValidateField(loc, f).ok <==>
      && 2 <= |Trim(f.value)| <= 50
      && forall i :: 0 <= i < |Trim(f.value)| ==> IsNameUnit(loc, Trim(f.value)[i])
  {
  }

  /** A required field the pattern table knows, whose pattern rejects the
      empty text, is accepted exactly when its trimmed value matches. */
  lemma KnownFieldAcceptance(loc: Locale, f: Field, k: FieldKind)
    requires KindOf(f.name) == Some(k) && f.required && f.errorText.Some?
    requires !PatternAccepts(loc, k, [])
    ensures ValidateField(loc, f).ok <==> PatternAccepts(loc, k, Trim(f.value))
  {
    if |Trim(f.value)| == 0 {
      assert Trim(f.value) == [];
    }
  }

  /** A required e-mail is accepted exactly when its trimmed value has one
      '@', no whitespace, a non-empty local part and an inner '.' in the domain. */
  lemma EmailFieldAcceptance(loc: Locale, f: Field)
    requires f.name == "email" && f.required && f.errorText.Some?
    ensures ValidateField(loc, f).ok <==> EmailRule(Trim(f.value))
  {
    KnownFieldAcceptance(loc, f, EmailField);
    EmailPatternIffRule(Trim(f.value));
  }

  /** A required message is accepted exactly when its trimmed value has 10 to
      1000 code units; line terminators inside count like any other unit. */
  lemma MessageFieldAcceptance(loc: Locale, f: Field)
    requires f.name == "message" && f.required && f.errorText.Some?
    ensures ValidateField(loc, f).ok <==> 10 <= |Trim(f.value)| <= 1000
  {
  }

  /** The English page rejects any name whose trimmed value holds a unit of
      the Arabic block. */
  lemma EnglishNameRejectsArabic(f: Field, i: nat)
    requires f.name == "name" && f.errorText.Some?
    requires i < |Trim(f.value)| && IsArabicBlock(Trim(f.value)[i])
    ensures !ValidateField(English, f).ok
  {
    assert !IsNameUnit(English, Trim(f.value)[i]);
  }

  /** The editions differ only in the name alphabet: every field the English
      page accepts, the Arabic page accepts, and on fields other than the
      name the two agree. */
  lemma EnglishAcceptedIsArabicAccepted(f: Field)
    ensures ValidateField(English, f).ok ==> ValidateField(Arabic, f).ok
    ensures f.name != "name" ==> ValidateField(English, f).ok == ValidateField(Arabic, f).ok
  {
  }

  /** A name written in Arabic letters only, 2 to 50 of them, is accepted by
      the Arabic page and rejected by the English one. */
  lemma ArabicNameOnlyOnArabicPage(f: Field)
    requires f.name == "name" && f.required && f.errorText.Some?
    requires 2 <= |f.value| <= 50 && forall i :: 0 <= i < |f.value| ==> IsArabicBlock(f.value[i])
    ensures ValidateField(Arabic, f).ok && !ValidateField(English, f).ok
  {
    TrimOfUnpadded(f.value);
    NameFieldAcceptance(Arabic, f);
    EnglishNameRejectsArabic(f, 0);
  }

  /** The `input` listener: a field is validated again only while it shows
      an error, so typing never introduces an error on a clean field. */
  function OnInput(loc: Locale, f: Field): (g: Field)
    ensures !f.classes.error ==> g == f
    ensures g.classes.error ==> f.classes.error
    ensures f.classes.error && f.errorText.Some? ==> (g.classes.error <==> !ValidateField(loc, f).ok)
  {
    if f.classes.error then ValidateField(loc, f).field else f
  }

  // ---------------------------------------------------------------------
  // The character counter of the message box.
  // ---------------------------------------------------------------------

  datatype Counter = Counter(text: string, overLimit: bool)

  function CounterSuffix(loc: Locale): string {
    match loc
    case Arabic => "/1000 حرف"
    case English => "/1000 characters"
  }

  /** The number a counter text shows: the value of its leading digits. */
  function CounterReading(text: string): nat {
    DecimalValue(LeadingDigits(text))
  }

  /** The `input` listener of the message box: it shows the length of the
      untrimmed message and flags it when it exceeds 1000 code units. */
  function CounterFor(loc: Locale, message: JsString): (c: Counter)
    ensures c.overLimit <==> |message| > 1000
    ensures CounterReading(c.text) == |message|
    ensures |c.text| > |CounterSuffix(loc)|
    ensures c.text[|c.text| - |CounterSuffix(loc)|..] == CounterSuffix(loc)
  {
    var digits := Decimal(|message|);
    LeadingDigitsOfConcat(digits, CounterSuffix(loc));
    DecimalRoundTrip(|message|);
    Counter(digits + CounterSuffix(loc), |message| > 1000)
  }

  /** The literal text written into the counter after a successful send. */
  function ResetText(loc: Locale): string {
    match loc
    case Arabic => "0/1000 حرف"
    case English => "0/1000 characters"
  }

  /** The counter after a successful send, as the script leaves it: the text
      is reset but the over-limit flag keeps whatever value it had. */
  function ResetCounterAsWritten(loc: Locale, c: Counter): (d: Counter)
    ensures CounterReading(d.text) == 0
    ensures d.overLimit == c.overLimit
  {
    assert ResetText(loc) == Decimal(0) + CounterSuffix(loc);
    LeadingDigitsOfConcat(Decimal(0), CounterSuffix(loc));
    c.(text := ResetText(loc))
  }

  /** A message the form accepts can still have flagged the counter, since
      the counter measures the untrimmed text and the pattern the trimmed one.
      After the send, the counter as written reads 0 yet stays flagged as
      over the limit. */
  lemma OverLimitSurvivesReset(loc: Locale, message: JsString)
    requires |message| > 1000 && 10 <= |Trim(message)| <= 1000
    ensures ValidateField(loc, Field("message", message, true, Classes(false, false), Some(Blank))).ok
    ensures CounterFor(loc, message).overLimit
    ensures var d := ResetCounterAsWritten(loc, CounterFor(loc, message));
      CounterReading(d.text) == 0 && d.overLimit
  {
    MessageFieldAcceptance(loc, Field("message", message, true, Classes(false, false), Some(Blank)));
  }

  /** A message meeting the conditions above: 1000 letters and one trailing
      space, 1001 code units untrimmed and 1000 trimmed. */
  lemma OverLimitWitness()
    ensures var message: JsString := seq(1000, _ => 0x61) + [0x20];
      |message| == 1001 && |Trim(message)| == 1000
  {
    var message: JsString := seq(1000, _ => 0x61) + [0x20];
    assert TrimStart(message) == message;
    assert TrimEnd(message) == TrimEnd(message[..1000]);
    assert TrimEnd(message[..1000]) == message[..1000];
  }

  /** The counter after a successful send, corrected: exactly what the input
      listener shows for an empty message box. */
  function ResetCounter(loc: Locale): (c: Counter)
    ensures c == CounterFor(loc, [])
    ensures CounterReading(c.text) == 0 && !c.overLimit
  {
    assert Decimal(0) == "0";
    assert ResetText(Arabic) == "0" + CounterSuffix(Arabic);
    assert ResetText(English) == "0" + CounterSuffix(English);
    Counter(ResetText(loc), false)
  }

  // ---------------------------------------------------------------------
  // Submission.
  // ---------------------------------------------------------------------

  /** What the submit-status element announces. */
  datatype Notice = FixErrors | Sending | Sent | SendError

  datatype Status = Hidden | Shown(notice: Notice)

  function NoticeText(loc: Locale, n: Notice): string {
    match (loc, n)
    case (Arabic, FixErrors) => "يرجى تصحيح الأخطاء أعلاه"
    case (Arabic, Sending) => "جاري إرسال الرسالة..."
    case (Arabic, Sent) => "تم إرسال رسالتك بنجاح! سأتواصل معك قريباً."
    case (Arabic, SendError) => "حدث خطأ أثناء إرسال الرسالة. يرجى المحاولة مرة أخرى أو التواصل مباشرة."
    case (English, FixErrors) => "Please correct the errors above"
    case (English, Sending) => "Sending message..."
    case (English, Sent) => "Your message has been sent successfully! I will contact you soon."
    case (English, SendError) => "An error occurred while sending the message. Please try again or contact me directly."
  }

  /** The status element's class suffix for each notice. */
  function NoticeClass(n: Notice): string {
    match n
    case FixErrors => "error"
    case Sending => "loading"
    case Sent => "success"
    case SendError => "error"
  }

  /** What became of the POST to the form relay: `Delivered` for a response
      with `ok` set, `NotDelivered` for any other response or a network error. */
  datatype SendResult = Delivered | NotDelivered

  datatype ContactForm = ContactForm(fields: seq<Field>, counter: Counter, status: Status)

  /** The submit handler's loop over the required fields, for any per-field
      check `validate`: every field is checked, also after the first failure,
      and the form is valid when every check passed. */
  method ValidateAll(fields: seq<Field>, validate: Field -> Checked) returns (allValid: bool, checked: seq<Field>)
    ensures |checked| == |fields|
    ensures forall i :: 0 <= i < |fields| ==> checked[i] == validate(fields[i]).field
    ensures allValid <==> forall i :: 0 <= i < |fields| ==> validate(fields[i]).ok
  {
    allValid := true;
    checked := [];
    var i := 0;
    while i < |fields|
      invariant 0 <= i <= |fields|
      invariant |checked| == i
      invariant forall j :: 0 <= j < i ==> checked[j] == validate(fields[j]).field
      invariant allValid <==> forall j :: 0 <= j < i ==> validate(fields[j]).ok
    {
      var r := validate(fields[i]);
      if !r.ok {
        allValid := false;
      }
      checked := checked + [r.field];
      i := i + 1;
    }
  }

  /** `form.reset()` followed by removing both validation classes: the control
      is back to its default, empty value and carries neither class. */
  function ResetField(f: Field): (g: Field)
    ensures g.name == f.name && g.required == f.required && g.errorText == f.errorText
    ensures g.value == [] && !g.classes.error && !g.classes.valid
  {
    f.(value := [], classes := Classes(false, false))
  }

  /** `ResetField` on every field of the form. */
  function ResetFields(fields: seq<Field>): (r: seq<Field>)
    ensures |r| == |fields|
    ensures forall i :: 0 <= i < |r| ==> r[i] == ResetField(fields[i])
  {
    seq(|fields|, i requires 0 <= i < |fields| => ResetField(fields[i]))
  }

  /** The submit handler, for any per-field check `validate`, any rewrite
      `resetCounter` of the counter after a delivered message, and up to the
      relay's answer `send`: the form is posted exactly when every field
      passes; a delivered message resets the fields and rewrites the counter,
      a failed one leaves the checked form as it is. */
  method SubmitWith(loc: Locale, form: ContactForm, send: SendResult,
                    validate: Field -> Checked, resetCounter: Counter -> Counter)
    returns (after: ContactForm, posted: bool)
    ensures posted <==> forall i :: 0 <= i < |form.fields| ==> validate(form.fields[i]).ok
    ensures |after.fields| == |form.fields|
    ensures forall i :: 0 <= i < |form.fields| ==>
      after.fields[i] == if posted && send == Delivered then ResetField(validate(form.fields[i]).field)
                         else validate(form.fields[i]).field
    ensures after.counter == if posted && send == Delivered then resetCounter(form.counter) else form.counter
    ensures after.status == Shown(if !posted then FixErrors else if send == Delivered then Sent else SendError)
  {
    var allValid, checked := ValidateAll(form.fields, validate);
    posted := allValid;
    if !allValid {
      after := form.(fields := checked, status := Shown(FixErrors));
    } else if send == Delivered {
      after := ContactForm(ResetFields(checked), resetCounter(form.counter), Shown(Sent));
    } else {
      after := form.(fields := checked, status := Shown(SendError));
    }
  }

  /** The submit handler of the page as written, which checks each field
      with `ValidateField`: it posts exactly when every required field
      validates, and every field is left as its own validation left it (then
      reset, after a delivered message). A delivered message rewrites only the
      counter's text, so an over-limit flag stays. */
  method Submit(loc: Locale, form: ContactForm, send: SendResult) returns (after: ContactForm, posted: bool)
    ensures posted <==> forall i :: 0 <= i < |form.fields| ==> ValidateField(loc, form.fields[i]).ok
    ensures |after.fields| == |form.fields|
    ensures forall i :: 0 <= i < |form.fields| ==>
      after.fields[i] == if posted && send == Delivered then ResetField(ValidateField(loc, form.fields[i]).field)
                         else ValidateField(loc, form.fields[i]).field
    ensures after.counter ==
      if posted && send == Delivered then ResetCounterAsWritten(loc, form.counter) else form.counter
    ensures posted && send == Delivered ==>
      after.counter.text == CounterFor(loc, []).text && after.counter.overLimit == form.counter.overLimit
    ensures after.status == Shown(if !posted then FixErrors else if send == Delivered then Sent else SendError)
  {
    after, posted := SubmitWith(loc, form, send, f => ValidateField(loc, f), c => ResetCounterAsWritten(loc, c));
  }

  /** The submit handler with the corrected reset: after a delivered message
      the counter is that of an empty message box, never flagged. */
  method SubmitCorrected(loc: Locale, form: ContactForm, send: SendResult) returns (after: ContactForm, posted: bool)
    ensures posted <==> forall i :: 0 <= i < |form.fields| ==> ValidateField(loc, form.fields[i]).ok
    ensures posted && send == Delivered ==>
      after.counter == CounterFor(loc, []) && !after.counter.overLimit
    ensures !(posted && send == Delivered) ==> after.counter == form.counter
  {
    after, posted := SubmitWith(loc, form, send, f => ValidateField(loc, f), _ => ResetCounter(loc));
  }
}
