/**
 The contact form's submit handler: read the four fields, reject when one
 of them is blank after trim(), reject when the e-mail does not match the
 address pattern, otherwise log the submission, show a success toast and
 reset the form. Each rejection shows an error toast and returns before the
 reset, so the fields keep what the user typed.
 */
module ContactForm {
  import opened Js
  import Email
  import Alerts

  /** The values of the name, e-mail and subject inputs and the message textarea. */
  datatype Fields = Fields(name: string, email: string, subject: string, message: string)

  /** The fields after form.reset(), taking the inputs' default values to be empty. */
  const Cleared := Fields("", "", "", "")

  datatype Verdict = EmptyError | EmailError | Valid(payload: Fields)

  /** The record written to the console: the untrimmed fields and the time of submission. */
  datatype Submission = Submission(fields: Fields, timestamp: string)

  /** What one submit event leaves behind: the toast shown, what was logged, and the field values afterwards. */
  datatype Effect = Effect(alert: Alerts.Alert, logged: Option<Submission>, after: Fields)

  const EmptyMessage := "Please fill in all fields"
  const EmailMessage := "Please enter a valid email address"
  const SentMessage := "Message sent successfully! I will get back to you soon."

  /** Some field is nothing but white space (or empty). */
  predicate SomeBlank(f: Fields) {
    AllWs(f.name) || AllWs(f.email) || AllWs(f.subject) || AllWs(f.message)
  }

  /** The handler's first test: some field is '' after trim(). */
  predicate TrimmedEmpty(f: Fields) {
    Trim(f.name) == "" || Trim(f.email) == "" || Trim(f.subject) == "" || Trim(f.message) == ""
  }

  lemma TrimmedEmptyIsSomeBlank(f: Fields)
    ensures TrimmedEmpty(f) <==> SomeBlank(f)
  {
    TrimBlank(f.name);
    TrimBlank(f.email);
    TrimBlank(f.subject);
    TrimBlank(f.message);
  }

  /**
   The two checks in order: the blank check on trimmed values first, then the
   pattern on the untrimmed e-mail. A valid form carries the fields unchanged.
   */
  function Validate(f: Fields): (v: Verdict)
    ensures v == EmptyError <==> SomeBlank(f)
    ensures v == EmailError <==> !SomeBlank(f) && !Email.WellFormed(f.email)
    ensures v.Valid? <==> !SomeBlank(f) && Email.WellFormed(f.email)
    ensures v.Valid? ==> v.payload == f
  {
    TrimmedEmptyIsSomeBlank(f);
    Email.PatternIsWellFormed(f.email);
    if TrimmedEmpty(f) then
      EmptyError
    else if !Email.MatchesPattern(f.email) then
      EmailError
    else
      Valid(f)
  }

  /** The submit handler; `timestamp` stands for new Date().toISOString(). */
  function Submit(f: Fields, timestamp: string): (e: Effect)
    ensures e.logged == if Validate(f).Valid? then Some(Submission(f, timestamp)) else None
    ensures Validate(f).Valid? ==> e.after == Cleared
    ensures e.after == f <==> !Validate(f).Valid?
    ensures e.alert.background == Alerts.SuccessColor <==> Validate(f).Valid?
    ensures e.alert.background == Alerts.ErrorColor <==> !Validate(f).Valid?
    ensures e.alert.text == SentMessage <==> Validate(f).Valid?
    ensures e.alert.text == EmptyMessage <==> SomeBlank(f)
    ensures e.alert.text == EmailMessage <==> !SomeBlank(f) && !Email.WellFormed(f.email)
  {
    match Validate(f)
    case EmptyError => Effect(Alerts.ShowAlert(EmptyMessage, Some("error")), None, f)
    case EmailError => Effect(Alerts.ShowAlert(EmailMessage, Some("error")), None, f)
    case Valid(payload) =>
      assert !AllWs(f.name) && f.name != [];
      Effect(Alerts.ShowAlert(SentMessage, Some("success")), Some(Submission(payload, timestamp)), Cleared)
  }

  /** The accepted example: every field filled and a well-formed address. */
  lemma AcceptsExample()
    ensures Validate(Fields("Ann", "ann@example.com", "Hi", "Hello")) == Valid(Fields("Ann", "ann@example.com", "Hi", "Hello"))
  {
    var f := Fields("Ann", "ann@example.com", "Hi", "Hello");
    assert !SomeBlank(f) by {
      assert f.name[0] == 'A' && f.email[0] == 'a' && f.subject[0] == 'H' && f.message[0] == 'H';
      Filled(f);
    }
    ExampleAddress();
    assert Validate(f).Valid?;
  }

  /** A form whose fields each start with a character other than white space has no blank field. */
  lemma Filled(f: Fields)
    requires f.name != [] && f.email != [] && f.subject != [] && f.message != []
    requires !IsWs(f.name[0]) && !IsWs(f.email[0]) && !IsWs(f.subject[0]) && !IsWs(f.message[0])
    ensures !SomeBlank(f)
  {
  }

  lemma ExampleAddress()
    ensures Email.WellFormed("ann@example.com")
  {
    var e := "ann@example.com";
    assert e[..3] == "ann" && e[4..11] == "example" && e[12..] == "com";
    Email.LowercaseAtoms("ann");
    Email.LowercaseAtoms("example");
    Email.LowercaseAtoms("com");
    Email.FromPattern(e, 3, 11);
  }

  /** An address with nothing after the '@' passes the blank check and fails the pattern. */
  lemma RejectsMissingDomain()
    ensures Validate(Fields("Ann", "ann@", "Hi", "Hello")) == EmailError
  {
    var e := "ann@";
    var f := Fields("Ann", e, "Hi", "Hello");
    assert f.name[0] == 'A' && f.email[0] == 'a' && f.subject[0] == 'H' && f.message[0] == 'H';
    Filled(f);
    Email.IndexOfChar(e, '@', 3);
    assert e[4..] == [];
  }

  /** The pattern sees the untrimmed e-mail: a leading space passes the blank check but fails the pattern. */
  lemma RejectsLeadingSpace()
    ensures Validate(Fields("Ann", " a@b.c", "Hi", "Hello")) == EmailError
  {
    var e := " a@b.c";
    assert !AllWs("Ann") by { assert !IsWs("Ann"[0]); }
    assert !AllWs(e) by { assert !IsWs(e[1]); }
    assert !AllWs("Hi") by { assert !IsWs("Hi"[0]); }
    assert !AllWs("Hello") by { assert !IsWs("Hello"[0]); }
    assert IsWs(e[0]);
  }
}
