/**
 * The student form: four text fields, the per-field validation rules run
 * on submit, and the edit-in-progress state (`formData`, `errors`).
 */
module StudentForm {
  import opened Text
  import opened Remote

  datatype Field = Name | Email | Course | Phone {
    /** The input's `name` attribute, which is also its key in `formData`
        and in the JSON object handed to `onSubmit`. */
    function Key(): (k: string) {
      match this
      case Name => "name"
      case Email => "email"
      case Course => "course"
      case Phone => "phone"
    }
  }

  const AllFields: set<Field> := {Name, Email, Course, Phone}

  const NameRequired := "Name is required"
  const NameTooShort := "Name must be at least 2 characters"
  const EmailRequired := "Email is required"
  const EmailInvalid := "Email is invalid"
  const CourseRequired := "Course is required"
  const PhoneRequired := "Phone is required"
  const PhoneNotTenDigits := "Phone must be 10 digits"
  const FixErrorsToast := "Please fix all form errors!"

  /** The form's field values; the form always holds all four. */
  type Draft = map<Field, string>

  predicate Complete(d: Draft) {
    AllFields <= d.Keys
  }

  const BlankDraft: Draft := map[Name := "", Email := "", Course := "", Phone := ""]

  // ---------------------------------------------------------------------
  // The four rules, each on its own field only

  /** `name` is checked on its trimmed value: missing, too short, or fine. */
  function NameRule(name: string): (r: Option<string>)
    ensures r.None? || r == Some(NameRequired) || r == Some(NameTooShort)
  {
    var t := Trim(name);
    if t == "" then Some(NameRequired)
    else if Utf16Length(t) < 2 then Some(NameTooShort)
    else None
  }

  /** `email`: missing when blank, otherwise the regex decides. */
  function EmailRule(email: string): (r: Option<string>)
    ensures r.None? || r == Some(EmailRequired) || r == Some(EmailInvalid)
  {
    if Trim(email) == "" then Some(EmailRequired)
    else if !HasEmailShape(email) then Some(EmailInvalid)
    else None
  }

  /** `course`: only required. */
  function CourseRule(course: string): (r: Option<string>)
    ensures r.None? || r == Some(CourseRequired)
  {
    if Trim(course) == "" then Some(CourseRequired) else None
  }

  /** `phone`: missing when blank, otherwise ten digits once stripped. */
  function PhoneRule(phone: string): (r: Option<string>)
    ensures r.None? || r == Some(PhoneRequired) || r == Some(PhoneNotTenDigits)
  {
    if Trim(phone) == "" then Some(PhoneRequired)
    else if !TenDigits(DigitsOnly(phone)) then Some(PhoneNotTenDigits)
    else None
  }

  /** One `if (...) newErrors.f = message` step: `m` with the message stored
      under f when the rule produced one, and every other entry kept. */
  function WithError(m: map<Field, string>, f: Field, e: Option<string>): (r: map<Field, string>)
    ensures r.Keys == m.Keys + (if e.Some? then {f} else {})
    ensures e.Some? ==> r[f] == e.value
    ensures e.None? ==> r == m
    ensures forall g | g in m && g != f :: r[g] == m[g]
  {
    if e.Some? then m[f := e.value] else m
  }

  /** The four steps of `validateForm` applied to `{}`. */
  function Steps(name: Option<string>, email: Option<string>,
                 course: Option<string>, phone: Option<string>): (m: map<Field, string>) {
    WithError(WithError(WithError(WithError(map[], Name, name), Email, email), Course, course), Phone, phone)
  }

  function Pick(f: Field, name: Option<string>, email: Option<string>,
                course: Option<string>, phone: Option<string>): (e: Option<string>) {
    match f
    case Name => name
    case Email => email
    case Course => course
    case Phone => phone
  }

  /** The rule of field f. */
  function Rule(f: Field, v: string): (e: Option<string>) {
    match f
    case Name => NameRule(v)
    case Email => EmailRule(v)
    case Course => CourseRule(v)
    case Phone => PhoneRule(v)
  }

  /** After the four steps, field f holds what its own step stored. */
  lemma StepsAt(name: Option<string>, email: Option<string>,
                course: Option<string>, phone: Option<string>, f: Field)
    ensures var e := Pick(f, name, email, course, phone);
            var m := Steps(name, email, course, phone);
            (f in m <==> e.Some?) && (f in m ==> m[f] == e.value)
  {
  }

  /** The error map `validateForm` builds: all four fields are checked,
      with no short-circuit, and each entry holds one of its own field's
      messages. ValidateEntries says when each entry is present. */
  function Validate(d: Draft): (errors: map<Field, string>)
    requires Complete(d)
    ensures Name in errors ==> errors[Name] == NameRequired || errors[Name] == NameTooShort
    ensures Email in errors ==> errors[Email] == EmailRequired || errors[Email] == EmailInvalid
    ensures Course in errors ==> errors[Course] == CourseRequired
    ensures Phone in errors ==> errors[Phone] == PhoneRequired || errors[Phone] == PhoneNotTenDigits
  {
    StepsAt(NameRule(d[Name]), EmailRule(d[Email]), CourseRule(d[Course]), PhoneRule(d[Phone]), Name);
    StepsAt(NameRule(d[Name]), EmailRule(d[Email]), CourseRule(d[Course]), PhoneRule(d[Phone]), Email);
    StepsAt(NameRule(d[Name]), EmailRule(d[Email]), CourseRule(d[Course]), PhoneRule(d[Phone]), Course);
    StepsAt(NameRule(d[Name]), EmailRule(d[Email]), CourseRule(d[Course]), PhoneRule(d[Phone]), Phone);
    Steps(NameRule(d[Name]), EmailRule(d[Email]), CourseRule(d[Course]), PhoneRule(d[Phone]))
  }

  /** Validate(d) is the four steps over what each rule says about its
      field. */
  lemma ValidateOf(d: Draft, name: Option<string>, email: Option<string>,
                   course: Option<string>, phone: Option<string>)
    requires Complete(d)
    requires NameRule(d[Name]) == name && EmailRule(d[Email]) == email
    requires CourseRule(d[Course]) == course && PhoneRule(d[Phone]) == phone
    ensures Validate(d) == Steps(name, email, course, phone)
  {
  }

  /** Field f has an entry exactly when its own rule gives a message, and
      the entry is that message. */
  lemma ValidateAt(d: Draft, f: Field)
    requires Complete(d)
    ensures f in Validate(d) <==> Rule(f, d[f]).Some?
    ensures f in Validate(d) ==> Validate(d)[f] == Rule(f, d[f]).value
  {
    var name, email, course, phone := NameRule(d[Name]), EmailRule(d[Email]),
                                      CourseRule(d[Course]), PhoneRule(d[Phone]);
    StepsAt(name, email, course, phone, f);
    assert Validate(d) == Steps(name, email, course, phone);
    assert Pick(f, name, email, course, phone) == Rule(f, d[f]);
  }

  // ---------------------------------------------------------------------
  // What each rule means

  /** A whitespace-only name is missing; a name of one UTF-16 code unit after
      trimming is too short; anything longer passes. */
  lemma NameRuleMeaning(name: string)
    ensures NameRule(name) == Some(NameRequired) <==> AllSpace(name)
    ensures NameRule(name) == Some(NameTooShort) <==>
              !AllSpace(name) && |Trim(name)| == 1 && Trim(name)[0] as int < 0x1_0000
    ensures NameRule(name) == None <==> Utf16Length(Trim(name)) >= 2
  {
    TrimEdges(name);
    Utf16LengthOne(Trim(name));
    Utf16LengthBounds(Trim(name));
  }

  /** A blank email is missing; otherwise it is invalid exactly when no part
      of the untrimmed string matches `\S+@\S+\.\S+`. */
  lemma EmailRuleMeaning(email: string)
    ensures EmailRule(email) == Some(EmailRequired) <==> AllSpace(email)
    ensures EmailRule(email) == Some(EmailInvalid) <==>
              !AllSpace(email) && !MatchesEmailRegex(email)
    ensures EmailRule(email) == None <==> MatchesEmailRegex(email)
  {
    TrimEdges(email);
    EmailRegexByAnchors(email);
    if MatchesEmailRegex(email) {
      var at :| AtAt(email, at) && HasDotAfter(email, at);
      assert !IsSpace(email[at]);
    }
  }

  /** The course is in error exactly when it is blank. */
  lemma CourseRuleMeaning(course: string)
    ensures CourseRule(course) == Some(CourseRequired) <==> AllSpace(course)
    ensures CourseRule(course) == None <==> !AllSpace(course)
  {
    TrimEdges(course);
  }

  /** A blank phone is missing; otherwise it is in error exactly when it does
      not have ten digits once every non-digit is removed. */
  lemma PhoneRuleMeaning(phone: string)
    ensures PhoneRule(phone) == Some(PhoneRequired) <==> AllSpace(phone)
    ensures PhoneRule(phone) == Some(PhoneNotTenDigits) <==>
              !AllSpace(phone) && |DigitsOnly(phone)| != 10
    ensures PhoneRule(phone) == None <==> |DigitsOnly(phone)| == 10
  {
    TrimEdges(phone);
    StrippedTenDigits(phone);
    if AllSpace(phone) {
      DigitsOfSpaces(phone);
    }
  }

  // ---------------------------------------------------------------------
  // What the whole map means

  /** A draft every rule accepts, stated without the rules themselves. */
  ghost predicate AcceptableDraft(d: Draft)
    requires Complete(d)
  {
    && Utf16Length(Trim(d[Name])) >= 2
    && MatchesEmailRegex(d[Email])
    && !AllSpace(d[Course])
    && |DigitsOnly(d[Phone])| == 10
  }

  /** The map is empty exactly when none of the four fields has an entry. */
  lemma ValidateEmptyByFields(d: Draft)
    requires Complete(d)
    ensures Validate(d) == map[] <==>
              Name !in Validate(d) && Email !in Validate(d) &&
              Course !in Validate(d) && Phone !in Validate(d)
  {
    var e := Validate(d);
    if e != map[] {
      var f :| f in e;
      assert f.Name? || f.Email? || f.Course? || f.Phone?;
    }
  }

  /** Each field has an entry exactly when its value breaks its rule, and
      the entry is the "required" message for a blank value and the
      field's other message otherwise. */
  lemma ValidateEntries(d: Draft)
    requires Complete(d)
    ensures var errors := Validate(d);
            && (Name in errors <==> Utf16Length(Trim(d[Name])) < 2)
            && (Email in errors <==> !MatchesEmailRegex(d[Email]))
            && (Course in errors <==> AllSpace(d[Course]))
            && (Phone in errors <==> |DigitsOnly(d[Phone])| != 10)
    ensures var errors := Validate(d);
            && (Name in errors ==>
                  errors[Name] == if AllSpace(d[Name]) then NameRequired else NameTooShort)
            && (Email in errors ==>
                  errors[Email] == if AllSpace(d[Email]) then EmailRequired else EmailInvalid)
            && (Phone in errors ==>
                  errors[Phone] == if AllSpace(d[Phone]) then PhoneRequired else PhoneNotTenDigits)
  {
    ValidateAt(d, Name);
    ValidateAt(d, Email);
    ValidateAt(d, Course);
    ValidateAt(d, Phone);
    NameRuleMeaning(d[Name]);
    EmailRuleMeaning(d[Email]);
    CourseRuleMeaning(d[Course]);
    PhoneRuleMeaning(d[Phone]);
  }

  /** The map is empty exactly when the draft is acceptable. */
  lemma ValidateEmptyIff(d: Draft)
    requires Complete(d)
    ensures Validate(d) == map[] <==> AcceptableDraft(d)
  {
    ValidateEmptyByFields(d);
    ValidateEntries(d);
  }

  /** A field's entry depends on that field's value alone: changing the
      other three fields never adds, removes or rewords it. */
  lemma ValidateFieldIndependent(d: Draft, d': Draft, f: Field)
    requires Complete(d) && Complete(d')
    requires d[f] == d'[f]
    ensures f in Validate(d) <==> f in Validate(d')
    ensures f in Validate(d) ==> Validate(d)[f] == Validate(d')[f]
  {
    ValidateAt(d, f);
    ValidateAt(d', f);
  }

  /** No short-circuit: a form left blank (or only whitespace) gets all four
      "required" messages at once. */
  lemma BlankFormHasFourErrors(d: Draft)
    requires Complete(d)
    requires forall f | f in AllFields :: AllSpace(d[f])
    ensures Validate(d) == map[Name := NameRequired, Email := EmailRequired,
                               Course := CourseRequired, Phone := PhoneRequired]
    ensures |Validate(d)| == 4
  {
    var expected := map[Name := NameRequired, Email := EmailRequired,
                        Course := CourseRequired, Phone := PhoneRequired];
    NameRuleMeaning(d[Name]);
    EmailRuleMeaning(d[Email]);
    CourseRuleMeaning(d[Course]);
    PhoneRuleMeaning(d[Phone]);
    ValidateOf(d, Some(NameRequired), Some(EmailRequired), Some(CourseRequired), Some(PhoneRequired));
    assert expected.Keys == {Name, Email, Course, Phone};
  }

  // The examples take their literal through a `requires` rather than
  // writing it in the `ensures`: a literal argument makes the verifier
  // unfold the recursive string functions over it, which costs far more.

  /** "Al", "bad-email", "CS", "12345": only email and phone are in error. */
  lemma ExampleTwoErrors(d: Draft)
    requires d == map[Name := "Al", Email := "bad-email", Course := "CS", Phone := "12345"]
    ensures Validate(d) == map[Email := EmailInvalid, Phone := PhoneNotTenDigits]
  {
    PlainNameAccepted(d[Name]);
    assert !IsSpace(d[Email][0]);
    assert forall i | 0 <= i < |d[Email]| :: d[Email][i] != '@';
    EmailWithoutAt(d[Email]);
    ExampleCourseCS(d[Course]);
    assert forall i | 0 <= i < |d[Phone]| :: IsDigit(d[Phone][i]);
    DigitsNotTen(d[Phone]);
    ValidateOf(d, None, Some(EmailInvalid), None, Some(PhoneNotTenDigits));
  }

  /** "Alice Smith", "a@b.com", "CS", "(555) 123-4567" is accepted: the phone
      has ten digits once the brackets, space and dash are stripped. */
  lemma ExampleAccepted(d: Draft)
    requires d == map[Name := "Alice Smith", Email := "a@b.com", Course := "CS",
                      Phone := "(555) 123-4567"]
    ensures Validate(d) == map[]
  {
    PlainNameAccepted(d[Name]);
    ExampleEmailGood(d[Email]);
    ExampleCourseCS(d[Course]);
    ExamplePhoneFormatted(d[Phone]);
    ValidateOf(d, None, None, None, None);
  }

  /** A name of at least two Basic Multilingual Plane characters with
      non-space ends passes. */
  lemma PlainNameAccepted(name: string)
    requires |name| >= 2 && !IsSpace(name[0]) && !IsSpace(name[|name| - 1])
    requires forall i | 0 <= i < |name| :: name[i] as int < 0x1_0000
    ensures NameRule(name) == None
  {
    TrimUnchanged(name);
    Utf16LengthBounds(name);
  }

  /** An email that is not blank but has no '@' is invalid. */
  lemma EmailWithoutAt(email: string)
    requires !AllSpace(email)
    requires forall i | 0 <= i < |email| :: email[i] != '@'
    ensures EmailRule(email) == Some(EmailInvalid)
  {
    TrimEdges(email);
    AtFromWithoutAt(email, 1);
  }

  /** The shortest kind of valid address: one character in each part. */
  lemma ExampleEmailGood(email: string)
    requires email == "a@b.com"
    ensures EmailRule(email) == None
  {
    TrimUnchanged(email);
    assert DotRun(email, 1, 3);
    assert DotRun(email, 1, 2);
    assert AtFrom(email, 1);
  }

  lemma ExampleCourseCS(course: string)
    requires course == "CS"
    ensures CourseRule(course) == None
  {
    TrimUnchanged(course);
  }

  /** A phone made only of digits, but not ten of them, is in error. */
  lemma DigitsNotTen(phone: string)
    requires phone != [] && |phone| != 10
    requires forall i | 0 <= i < |phone| :: IsDigit(phone[i])
    ensures PhoneRule(phone) == Some(PhoneNotTenDigits)
  {
    TrimEdges(phone);
    assert !IsSpace(phone[0]);
    DigitsOnlyOfDigits(phone);
  }

  /** Brackets, a space and a dash are stripped before the digits are counted. */
  lemma ExamplePhoneFormatted(phone: string)
    requires phone == "(555) 123-4567"
    ensures PhoneRule(phone) == None
  {
    var area, first, last := "555", "123", "4567";
    assert phone == ("(" + area + ") ") + (first + "-" + last);
    assert forall i | 0 <= i < |area| :: IsDigit(area[i]);
    assert forall i | 0 <= i < |first| :: IsDigit(first[i]);
    assert forall i | 0 <= i < |last| :: IsDigit(last[i]);
    assert forall i | 0 <= i < |"("| :: !IsDigit("("[i]);
    assert forall i | 0 <= i < |") "| :: !IsDigit(") "[i]);
    DigitsOfBracketedArea("(", area, ") ");
    DigitsOfDashedNumber(first, last);
    DigitsOnlyAppend("(" + area + ") ", first + "-" + last);
    assert |area + (first + last)| == 10;
    PhoneRuleMeaning(phone);
  }

  /** An area code between characters that are not digits, as in
      "(555) ", strips to its digits. */
  lemma DigitsOfBracketedArea(open: string, area: string, close: string)
    requires forall i | 0 <= i < |open| :: !IsDigit(open[i])
    requires forall i | 0 <= i < |area| :: IsDigit(area[i])
    requires forall i | 0 <= i < |close| :: !IsDigit(close[i])
    ensures DigitsOnly(open + area + close) == area
  {
    DigitsOnlyOfNonDigits(open);
    DigitsOnlyOfDigits(area);
    DigitsOnlyOfNonDigits(close);
    DigitsOfPieces(open, area, close);
    assert [] + area == area && area + [] == area;
  }

  /** Two digit groups joined by a dash, as in "123-4567", strip to the
      digits of both. */
  lemma DigitsOfDashedNumber(first: string, last: string)
    requires forall i | 0 <= i < |first| :: IsDigit(first[i])
    requires forall i | 0 <= i < |last| :: IsDigit(last[i])
    ensures DigitsOnly(first + "-" + last) == first + last
  {
    DigitsOnlyOfDigits(first);
    DigitsOnlyOfNonDigits("-");
    DigitsOnlyOfDigits(last);
    DigitsOfPieces(first, "-", last);
    assert first + [] == first;
  }

  /** Stripping three pieces one by one. */
  lemma DigitsOfPieces(x: string, y: string, z: string)
    ensures DigitsOnly(x + y + z) == DigitsOnly(x) + DigitsOnly(y) + DigitsOnly(z)
  {
    DigitsOnlyAppend(x, y);
    DigitsOnlyAppend(x + y, z);
  }

  // ---------------------------------------------------------------------
  // The component's state

  /** The object `onSubmit` receives: formData under its four keys. */
  function AsObject(d: Draft): (o: Obj)
    requires Complete(d)
    ensures o.Keys == {"name", "email", "course", "phone"}
    ensures forall f | f in AllFields :: f.Key() in o && o[f.Key()] == d[f]
  {
    map["name" := d[Name], "email" := d[Email], "course" := d[Course], "phone" := d[Phone]]
  }

  /** One mounted StudentForm: its `formData` and `errors` state, with the
      toasts it has shown and the `onSubmit` calls it has made. */
  class Form {
    var formData: Draft
    var errors: map<Field, string>
    var toasts: seq<string>
    var submitted: seq<Obj>

    ghost predicate Valid()
      reads this
    {
      Complete(formData)
    }

    /** The message rendered under field `f`: an entry blanked to '' is
        falsy and shows nothing. */
    function ShownError(f: Field): (r: Option<string>)
      reads this
      ensures r.Some? <==> f in errors && errors[f] != ""
      ensures r.Some? ==> r.value == errors[f]
    {
      if f in errors && errors[f] != "" then Some(errors[f]) else None
    }

    /** The initial state: four empty fields and no errors. */
    constructor ()
      ensures Valid()
      ensures formData.Keys == AllFields && errors == map[]
      ensures forall f | f in AllFields :: formData[f] == ""
      ensures toasts == [] && submitted == []
    {
      formData := BlankDraft;
      errors := map[];
      toasts := [];
      submitted := [];
    }

    /** The effect run when the `student` prop changes: a present student
        replaces all four fields, a missing field reading as ''. Errors are
        left alone. */
    method Seed(student: Option<Obj>)
      requires Valid()
      modifies this`formData
      ensures Valid()
      ensures student.None? ==> formData == old(formData)
      ensures student.Some? ==>
                forall f | f in AllFields :: formData[f] == GetOrEmpty(student.value, f.Key())
    {
      if student.Some? {
        var s := student.value;
        formData := map[Name := GetOrEmpty(s, "name"), Email := GetOrEmpty(s, "email"),
                        Course := GetOrEmpty(s, "course"), Phone := GetOrEmpty(s, "phone")];
      }
    }

    /** `validateForm`: builds the error map one field after the other,
        each rule adding its message if it has one, stores it,
        shows a toast when it is not empty, and reports whether it is. */
    method ValidateForm() returns (ok: bool)
      requires Valid()
      modifies this`errors, this`toasts
      ensures Valid()
      ensures errors == Validate(formData)
      ensures ok <==> errors == map[]
      ensures ok <==> AcceptableDraft(formData)
      ensures toasts == old(toasts) + (if ok then [] else [FixErrorsToast])
    {
      var name, email, course, phone := formData[Name], formData[Email], formData[Course], formData[Phone];
      var newErrors: map<Field, string> := map[];
      newErrors := WithError(newErrors, Name, NameRule(name));
      newErrors := WithError(newErrors, Email, EmailRule(email));
      newErrors := WithError(newErrors, Course, CourseRule(course));
      newErrors := WithError(newErrors, Phone, PhoneRule(phone));

      ValidateOf(formData, NameRule(name), EmailRule(email), CourseRule(course), PhoneRule(phone));
      assert newErrors == Steps(NameRule(name), EmailRule(email), CourseRule(course), PhoneRule(phone));
      assert |newErrors| == 0 <==> newErrors == map[];
      ValidateEmptyIff(formData);
      errors := newErrors;
      if |newErrors| > 0 {
        toasts := toasts + [FixErrorsToast];
      }
      ok := |newErrors| == 0;
    }

    /** `handleChange`: store the new value of one field; if that field
        showed an error, blank its message (the key stays). */
    method HandleChange(f: Field, value: string)
      requires Valid()
      modifies this`formData, this`errors
      ensures Valid()
      ensures formData == old(formData)[f := value]
      ensures forall g | g in AllFields && g != f :: formData[g] == old(formData)[g]
      ensures if f in old(errors) && old(errors)[f] != ""
              then errors == old(errors)[f := ""]
              else errors == old(errors)
      ensures f in errors ==> errors[f] == ""
      ensures forall g | g != f :: (g in errors <==> g in old(errors)) &&
                                   (g in errors ==> errors[g] == old(errors)[g])
      ensures ShownError(f) == None
      ensures forall g | g != f :: ShownError(g) == old(ShownError(g))
    {
      formData := formData[f := value];
      if f in errors && errors[f] != "" {
        errors := errors[f := ""];
      }
    }

    /** `handleSubmit`: validate, and call `onSubmit` with the current data
        only when there is no error. */
    method HandleSubmit() returns (ok: bool)
      requires Valid()
      modifies this`errors, this`toasts, this`submitted
      ensures Valid() && formData == old(formData)
      ensures errors == Validate(formData)
      ensures ok <==> errors == map[]
      ensures ok <==> AcceptableDraft(formData)
      ensures toasts == old(toasts) + (if ok then [] else [FixErrorsToast])
      ensures submitted == old(submitted) + (if ok then [AsObject(formData)] else [])
    {
      ok := ValidateForm();
      if ok {
        submitted := submitted + [AsObject(formData)];
      }
    }
  }

  /** Submitting an untouched form shows four "required" errors and one
      toast, and calls `onSubmit` not at all. */
  method SubmitBlank() returns (form: Form)
    ensures fresh(form) && form.Valid()
    ensures form.submitted == [] && form.toasts == [FixErrorsToast]
    ensures form.errors == map[Name := NameRequired, Email := EmailRequired,
                               Course := CourseRequired, Phone := PhoneRequired]
  {
    form := new Form();
    var ok := form.HandleSubmit();
    BlankFormHasFourErrors(form.formData);
    assert Name in form.errors;
  }

  /** After that submit, typing into the name field blanks only the name's
      message. */
  method SubmitBlankThenType(name: string)
    returns (submitted: seq<Obj>, afterSubmit: map<Field, string>, afterTyping: map<Field, string>,
             toasts: seq<string>)
    ensures submitted == [] && toasts == [FixErrorsToast]
    ensures afterSubmit == map[Name := NameRequired, Email := EmailRequired,
                               Course := CourseRequired, Phone := PhoneRequired]
    ensures afterTyping == afterSubmit[Name := ""]
  {
    var form := SubmitBlank();
    afterSubmit := form.errors;
    form.HandleChange(Name, name);
    submitted, afterTyping, toasts := form.submitted, form.errors, form.toasts;
  }
}
