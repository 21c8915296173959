/**
 * The registration page: a three-field form, its sparse error map updated
 * one keystroke at a time, and the submit step that either stops at the
 * validation modal or sends the one registration request.
 */
module Registration {
  import opened JsText
  import opened EmailPattern
  import opened AuthCommon

  datatype Field = Name | Email | Password

  /** The `form` state: one raw string per input. */
  datatype Form = Form(name: string, email: string, password: string) {
    function Get(f: Field): string {
      match f
      case Name => name
      case Email => email
      case Password => password
    }

    /** `{ ...prev, [f]: v }`: the named field takes v, the others keep their values. */
    function With(f: Field, v: string): (r: Form)
      ensures r.Get(f) == v
      ensures forall g :: g != f ==> r.Get(g) == Get(g)
    {
      match f
      case Name => this.(name := v)
      case Email => this.(email := v)
      case Password => this.(password := v)
    }
  }

  /** The `error` state: a field without a key is currently valid. */
  type Errors = map<Field, string>

  const NameRequired := "Name is required"
  const EmailRequired := "Email is required"
  const EmailInvalid := "Email is invalid"
  const PasswordRequired := "Password is required"
  const PasswordTooShort := "Password must be at least 6 characters"
  const MinPasswordLength := 6

  /**
   * The rule table of `validateField`, applied to the raw value: blankness is
   * judged on `value.trim()`, the pattern and the length on the value itself,
   * the length in UTF-16 code units as `value.length` counts it.
   */
  function RuleFor(f: Field, v: string): Check {
    match f
    case Name => if IsBlank(v) then Fail(NameRequired) else Pass
    case Email =>
      if IsBlank(v) then Fail(EmailRequired)
      else if !MatchesEmailPattern(v) then Fail(EmailInvalid)
      else Pass
    case Password =>
      if IsBlank(v) then Fail(PasswordRequired)
      else if Utf16Length(v) < MinPasswordLength then Fail(PasswordTooShort)
      else Pass
  }

  /** The name passes exactly when it holds a non-whitespace character; otherwise it is "required". */
  lemma NameRule(v: string)
    ensures RuleFor(Name, v) == Pass <==> !AllWhitespace(v, 0, |v|)
    ensures RuleFor(Name, v) != Pass ==> RuleFor(Name, v) == Fail(NameRequired)
  {
    BlankIffAllWhitespace(v);
  }

  /**
   * The email passes exactly when the regular expression matches the raw
   * value (a match already contains non-whitespace); a blank value is
   * "required" and any other failure is "invalid".
   */
  lemma EmailRule(v: string)
    ensures RuleFor(Email, v) == Pass <==> RegexTest(v)
    ensures RuleFor(Email, v) == Fail(EmailRequired) <==> AllWhitespace(v, 0, |v|)
    ensures !AllWhitespace(v, 0, |v|) && !RegexTest(v) ==> RuleFor(Email, v) == Fail(EmailInvalid)
  {
    BlankIffAllWhitespace(v);
    MatchesEmailPatternIffRegexTest(v);
    if MatchesEmailPattern(v) {
      var _ := MatchHasAt(v);
    }
  }

  /** A value that is not blank but has no `@` is always "Email is invalid". */
  lemma EmailWithoutAtIsInvalid(v: string)
    requires !AllWhitespace(v, 0, |v|) && '@' !in v
    ensures RuleFor(Email, v) == Fail(EmailInvalid)
  {
    BlankIffAllWhitespace(v);
    NoAtNeverMatches(v);
  }

  /**
   * The password passes exactly when it has a non-whitespace character and
   * at least six UTF-16 code units in all, whitespace included; a blank value
   * is "required" and any other shorter one is "too short".
   */
  lemma PasswordRule(v: string)
    ensures RuleFor(Password, v) == Pass <==> !AllWhitespace(v, 0, |v|) && Utf16Length(v) >= MinPasswordLength
    ensures Utf16Length(v) < MinPasswordLength ==> RuleFor(Password, v).Fail?
    ensures RuleFor(Password, v) == Fail(PasswordRequired) <==> AllWhitespace(v, 0, |v|)
    ensures !AllWhitespace(v, 0, |v|) && Utf16Length(v) < MinPasswordLength ==> RuleFor(Password, v) == Fail(PasswordTooShort)
  {
    BlankIffAllWhitespace(v);
    var n := Utf16Length(v);
    if IsBlank(v) {
      assert RuleFor(Password, v) == Fail(PasswordRequired);
    } else if n < MinPasswordLength {
      assert RuleFor(Password, v) == Fail(PasswordTooShort);
    } else {
      assert RuleFor(Password, v) == Pass;
    }
  }

  /**
   * Three emoji are three characters but six UTF-16 code units, so
   * `value.length` lets them through as a password.
   */
  lemma SurrogatePairSample()
    ensures |"\U{1F600}\U{1F600}\U{1F600}"| == 3
    ensures RuleFor(Password, "\U{1F600}\U{1F600}\U{1F600}") == Pass
  {
    var v := "\U{1F600}\U{1F600}\U{1F600}";
    assert !IsWhitespace(v[0]);
    BlankIffAllWhitespace(v);
  }

  /** The address `a@b.com` passes and leaves no email error. */
  lemma SampleEmailPasses()
    ensures RuleFor(Email, "a@b.com") == Pass
  {
    assert !IsWhitespace("a@b.com"[0]);
    BlankIffAllWhitespace("a@b.com");
  }

  /**
   * The page's invariant: every key holds the message its field's current
   * value earns, and a field without a key either passes or was never
   * edited (it still holds the initial "").
   */
  ghost predicate Consistent(form: Form, errs: Errors) {
    forall f: Field ::
      if f in errs then RuleFor(f, form.Get(f)) == Fail(errs[f])
      else RuleFor(f, form.Get(f)) == Pass || form.Get(f) == []
  }

  /** The submit condition `Object.keys(error).length === 0 && form.name && form.email && form.password`. */
  predicate SubmitAllowed(form: Form, errs: Errors) {
    errs == map[] && forall f: Field :: form.Get(f) != []
  }

  /**
   * On a consistent page the submit condition admits only forms whose every
   * field passes its rule: a non-blank name, an email the pattern matches
   * and a non-blank password of six characters or more.
   */
  lemma SubmitAllowedMeansValid(form: Form, errs: Errors)
    requires Consistent(form, errs) && SubmitAllowed(form, errs)
    ensures forall f: Field :: RuleFor(f, form.Get(f)) == Pass
    ensures !IsBlank(form.name) && !IsBlank(form.email) && !IsBlank(form.password)
    ensures RegexTest(form.email) && Utf16Length(form.password) >= MinPasswordLength
  {
    assert RuleFor(Name, form.Get(Name)) == Pass;
    assert RuleFor(Email, form.Get(Email)) == Pass;
    assert RuleFor(Password, form.Get(Password)) == Pass;
    EmailRule(form.email);
  }

  const ValidationTitle := "Validation Failed"
  const ValidationText := "Please fix the errors before registering."
  const FailureTitle := "Registration Failed"
  const SuccessTitle := "Registration Successful"
  const SuccessRoute := "/login"

  class RegistrationPage {
    var form: Form
    var error: Errors

    ghost predicate Valid()
      reads this
    {
      Consistent(form, error)
    }

    /** The initial state: every input empty, no error shown. */
    constructor ()
      ensures Valid()
      ensures form == Form("", "", "") && error == map[]
    {
      form := Form("", "", "");
      error := map[];
    }

    /** `validateField`: copies the error map, sets or deletes the field's key, stores the copy. */
    method ValidateField(field: Field, value: string)
      modifies this`error
      ensures error == Record(old(error), field, RuleFor(field, value))
    {
      var errs := error;
      if field == Name {
        if IsBlank(value) {
          errs := errs[Name := NameRequired];
        } else {
          errs := errs - {Name};
        }
      }
      if field == Email {
        if IsBlank(value) {
          errs := errs[Email := EmailRequired];
        } else if !MatchesEmailPattern(value) {
          errs := errs[Email := EmailInvalid];
        } else {
          errs := errs - {Email};
        }
      }
      if field == Password {
        if IsBlank(value) {
          errs := errs[Password := PasswordRequired];
        } else if Utf16Length(value) < MinPasswordLength {
          errs := errs[Password := PasswordTooShort];
        } else {
          errs := errs - {Password};
        }
      }
      error := errs;
    }

    /** `handleChange`: stores the raw value in the named field, then validates that value. */
    method HandleChange(field: Field, value: string)
      requires Valid()
      modifies this
      ensures Valid()
      ensures form == old(form).With(field, value)
      ensures error == Record(old(error), field, RuleFor(field, value))
    {
      form := form.With(field, value);
      ValidateField(field, value);
    }

    /**
     * `handleRegistration`, given the answer the backend would send: no
     * request unless the error map is empty and every field non-empty, in
     * which case every field passes its rule; a rejection shows its message
     * or the fallback; an acceptance stores the user and goes to the login page.
     */
    method HandleRegistration(response: Response) returns (outcome: Outcome)
      requires Valid()
      ensures outcome.Requested() <==> SubmitAllowed(form, error)
      ensures !outcome.Requested() ==> outcome == ValidationFailed(ValidationTitle, ValidationText)
      ensures outcome.Requested() ==> forall f: Field :: RuleFor(f, form.Get(f)) == Pass
      ensures outcome.Requested() && response.Rejected? ==>
                outcome == RequestFailed(FailureTitle, FailureText(response.message))
      ensures outcome.Requested() && response.Accepted? ==>
                outcome == Succeeded(response.user, SuccessTitle, WelcomeText(response.user), SuccessRoute)
    {
      if |error| == 0 && form.name != "" && form.email != "" && form.password != "" {
        assert error.Keys == {};
        assert SubmitAllowed(form, error);
        SubmitAllowedMeansValid(form, error);
        match response
        case Accepted(user) =>
          outcome := Succeeded(user, SuccessTitle, WelcomeText(user), SuccessRoute);
        case Rejected(message) =>
          outcome := RequestFailed(FailureTitle, FailureText(message));
      } else {
        assert form.Get(Name) == form.name && form.Get(Email) == form.email && form.Get(Password) == form.password;
        outcome := ValidationFailed(ValidationTitle, ValidationText);
      }
    }
  }
}
