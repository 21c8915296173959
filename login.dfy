/**
 * The login page: the same form-and-error-map machine as registration with
 * two fields, except that a keystroke stores `value.trimStart()` and
 * validates `value.trim()`, so every rule sees the value without the
 * whitespace around it.
 */
module Login {
  import opened JsText
  import opened EmailPattern
  import opened AuthCommon
  import Registration

  datatype Field = Email | Password

  /** The `form` state: one string per input, as stored after `trimStart`. */
  datatype Form = Form(email: string, password: string) {
    function Get(f: Field): string {
      match f
      case Email => email
      case Password => password
    }

    /** `{ ...prev, [f]: v }`: the named field takes v, the other keeps its value. */
    function With(f: Field, v: string): (r: Form)
      ensures r.Get(f) == v
      ensures forall g :: g != f ==> r.Get(g) == Get(g)
    {
      match f
      case Email => this.(email := v)
      case Password => this.(password := v)
    }
  }

  /** The `error` state: a field without a key is currently valid. */
  type Errors = map<Field, string>

  const EmailRequired := "Email is required"
  const EmailInvalid := "Email is invalid"
  const PasswordRequired := "Password is required"
  const PasswordTooShort := "Password must be at least 6 characters"
  const MinPasswordLength := 6

  /**
   * The rule table of `validateField`, applied to the value it is given
   * (the trimmed input): "required" when it is empty, then the pattern or
   * the length in UTF-16 code units.
   */
  function RuleFor(f: Field, v: string): Check {
    match f
    case Email =>
      if v == [] then Fail(EmailRequired)
      else if !MatchesEmailPattern(v) then Fail(EmailInvalid)
      else Pass
    case Password =>
      if v == [] then Fail(PasswordRequired)
      else if Utf16Length(v) < MinPasswordLength then Fail(PasswordTooShort)
      else Pass
  }

  /**
   * For a keystroke value, the email passes exactly when the regular
   * expression matches the value as typed: trimming never removes part of
   * a match. An input of whitespace only is "required", any other input the
   * expression rejects is "invalid".
   */
  lemma EmailRule(value: string)
    ensures RuleFor(Email, Trim(value)) == Pass <==> RegexTest(value)
    ensures RuleFor(Email, Trim(value)) == Fail(EmailRequired) <==> AllWhitespace(value, 0, |value|)
    ensures !AllWhitespace(value, 0, |value|) && !RegexTest(value) ==> RuleFor(Email, Trim(value)) == Fail(EmailInvalid)
  {
    BlankIffAllWhitespace(value);
    MatchIgnoresSurroundingWhitespace(value);
    MatchesEmailPatternIffRegexTest(value);
  }

  /**
   * For a keystroke value, the password passes exactly when the value
   * without its surrounding whitespace has six UTF-16 code units or more;
   * whitespace only is "required" and anything else shorter "too short".
   */
  lemma PasswordRule(value: string)
    ensures RuleFor(Password, Trim(value)) == Pass <==> Utf16Length(Trim(value)) >= MinPasswordLength
    ensures RuleFor(Password, Trim(value)) == Fail(PasswordRequired) <==> AllWhitespace(value, 0, |value|)
    ensures !AllWhitespace(value, 0, |value|) && Utf16Length(Trim(value)) < MinPasswordLength ==>
              RuleFor(Password, Trim(value)) == Fail(PasswordTooShort)
  {
    BlankIffAllWhitespace(value);
  }

  /** Whitespace typed around a password never changes its verdict. */
  lemma PasswordIgnoresPadding(p: string, value: string, q: string)
    requires AllWhitespace(p, 0, |p|) && AllWhitespace(q, 0, |q|)
    ensures RuleFor(Password, Trim(p + value + q)) == RuleFor(Password, Trim(value))
  {
    TrimIgnoresPadding(p, value, q);
  }

  /**
   * Five spaces and one letter: registration counts the spaces and accepts
   * the password, login trims them away and reports it too short.
   */
  lemma PaddedPasswordSample()
    ensures Registration.RuleFor(Registration.Password, "     a") == Pass
    ensures RuleFor(Password, Trim("     a")) == Fail(PasswordTooShort)
  {
    var v := "     a";
    assert Trim(v) == "a" by {
      assert v == "     " + "a" + "";
      assert AllWhitespace("     ", 0, 5);
      TrimOfFramed("     ", "a", "");
    }
    Registration.PasswordRule(v);
    assert !IsWhitespace(v[5]);
  }

  /**
   * The page's invariant: every key holds the message the trimmed current
   * value earns, and a field without a key either passes or was never
   * edited (it still holds the initial "").
   */
  ghost predicate Consistent(form: Form, errs: Errors) {
    forall f: Field ::
      if f in errs then RuleFor(f, Trim(form.Get(f))) == Fail(errs[f])
      else RuleFor(f, Trim(form.Get(f))) == Pass || form.Get(f) == []
  }

  /** The submit condition `Object.keys(error).length === 0 && form.email && form.password`. */
  predicate SubmitAllowed(form: Form, errs: Errors) {
    errs == map[] && forall f: Field :: form.Get(f) != []
  }

  /**
   * On a consistent page the submit condition admits only forms whose every
   * field passes its rule: an email the pattern matches and a password with
   * six characters or more between its first and last non-whitespace ones.
   */
  lemma SubmitAllowedMeansValid(form: Form, errs: Errors)
    requires Consistent(form, errs) && SubmitAllowed(form, errs)
    ensures forall f: Field :: RuleFor(f, Trim(form.Get(f))) == Pass
    ensures !IsBlank(form.email) && !IsBlank(form.password)
    ensures RegexTest(form.email) && Utf16Length(Trim(form.password)) >= MinPasswordLength
  {
    assert RuleFor(Email, Trim(form.Get(Email))) == Pass;
    assert RuleFor(Password, Trim(form.Get(Password))) == Pass;
    EmailRule(form.email);
  }

  const ValidationTitle := "Validation Failed"
  const ValidationText := "Please fix the errors before continuing."
  const FailureTitle := "Login Failed"
  const SuccessTitle := "Login Successful"
  const SuccessRoute := "/NewsDashboard/pages/dashboard"

  class LoginPage {
    var form: Form
    var error: Errors

    ghost predicate Valid()
      reads this
    {
      Consistent(form, error)
    }

    /** The initial state: both inputs empty, no error shown. */
    constructor ()
      ensures Valid()
      ensures form == Form("", "") && error == map[]
    {
      form := Form("", "");
      error := map[];
    }

    /** `validateField`: copies the error map, sets or deletes the field's key, stores the copy. */
    method ValidateField(field: Field, value: string)
      modifies this`error
      ensures error == Record(old(error), field, RuleFor(field, value))
    {
      var errs := error;
      if field == Email {
        if value == "" {
          errs := errs[Email := EmailRequired];
        } else if !MatchesEmailPattern(value) {
          errs := errs[Email := EmailInvalid];
        } else {
          errs := errs - {Email};
        }
      }
      if field == Password {
        if value == "" {
          errs := errs[Password := PasswordRequired];
        } else if Utf16Length(value) < MinPasswordLength {
          errs := errs[Password := PasswordTooShort];
        } else {
          errs := errs - {Password};
        }
      }
      error := errs;
    }

    /**
     * `handleChange`: stores the value without its leading whitespace, then
     * validates the value without whitespace at either end.
     */
    method HandleChange(field: Field, value: string)
      requires Valid()
      modifies this
      ensures Valid()
      ensures form == old(form).With(field, TrimStart(value))
      ensures form.Get(field) == [] || !IsWhitespace(form.Get(field)[0])
      ensures error == Record(old(error), field, RuleFor(field, Trim(value)))
    {
      form := form.With(field, TrimStart(value));
      TrimAfterTrimStart(value);
      ValidateField(field, Trim(value));
    }

    /**
     * `handleLogin`, given the answer the backend would send: no request
     * unless the error map is empty and both fields non-empty, in which case
     * both pass their rules; a rejection shows its message or the fallback;
     * an acceptance stores the user and goes to the dashboard.
     */
    method HandleLogin(response: Response) returns (outcome: Outcome)
      requires Valid()
      ensures outcome.Requested() <==> SubmitAllowed(form, error)
      ensures !outcome.Requested() ==> outcome == ValidationFailed(ValidationTitle, ValidationText)
      ensures outcome.Requested() ==> forall f: Field :: RuleFor(f, Trim(form.Get(f))) == Pass
      ensures outcome.Requested() && response.Rejected? ==>
                outcome == RequestFailed(FailureTitle, FailureText(response.message))
      ensures outcome.Requested() && response.Accepted? ==>
                outcome == Succeeded(response.user, SuccessTitle, WelcomeText(response.user), SuccessRoute)
    {
      if |error| == 0 && form.email != "" && form.password != "" {
        assert error.Keys == {};
        assert SubmitAllowed(form, error);
        SubmitAllowedMeansValid(form, error);
        match response
        case Accepted(user) =>
          outcome := Succeeded(user, SuccessTitle, WelcomeText(user), SuccessRoute);
        case Rejected(message) =>
          outcome := RequestFailed(FailureTitle, FailureText(message));
      } else {
        assert form.Get(Email) == form.email && form.Get(Password) == form.password;
        outcome := ValidationFailed(ValidationTitle, ValidationText);
      }
    }
  }
}
