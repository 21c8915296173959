# Auth form validation of the NewsDashboard client

This project models the client-side form handling of the two authentication
pages of the NewsDashboard front end: the registration page (name, email,
password) and the login page (email, password). Each page holds two pieces of
state. One is the form, a record of input strings. The other is the error map,
a sparse map from field to message where a missing key means the field is
valid. Every keystroke stores the input and re-validates exactly that field.
A submit then either stops at the "Validation Failed" modal or makes the one
POST request.

Modules:

- `JsText` (`text.dfy`): the ECMAScript whitespace set, the one shared by the
  regex class `\s` and `String.prototype.trim`, the UTF-16 `length`, and the
  functions `trimStart`, `trimEnd` and `trim`, with lemmas on blankness and on padding.
- `EmailPattern` (`email_pattern.dfy`): the regex `\S+@\S+\.\S+` as the
  pages use it, unanchored. `RegexTest` is a reference definition: some span
  `s[a..e]` has the shape of the pattern. `MatchesEmailPattern` is the
  executable left-to-right search that the rules use. One lemma proves the
  two agree on every string.
- `AuthCommon` (`auth_common.dfy`): the verdict of one field rule
  (`Check`), how a verdict is written into the error map (`Record`), the
  backend's answer (`Response`, an input), the outcome of a submit
  (`Outcome`) and the failure text.
- `Registration` (`registration.dfy`) and `Login` (`login.dfy`): one module
  per page. Each has its rule table `RuleFor` (whose verdict, written with
  `Record`, specifies `validateField`) and a class with `form` and
  `error` fields. The class methods are `ValidateField`, `HandleChange` and
  the submit handler. The class invariant `Consistent` says that every
  error-map key holds the message that its field's current value earns, and
  that a field without a key either passes or has never been edited. From
  the invariant, the pages prove that the submit condition lets a request
  through only when every field passes its rule.

The registration page checks blankness on `value.trim()`, but it matches the
email pattern and counts the password length on the raw value. The login page
stores `value.trimStart()` and validates `value.trim()`, so whitespace around a
password never counts toward the six characters (`Login.PasswordIgnoresPadding`,
`Login.PaddedPasswordSample`).

The submit test only checks that the raw strings are non-empty.
`SubmitAllowedMeansValid` proves, for both pages, that under the page invariant
every field is then also non-blank after trimming and passes its rule.

Password lengths are counted as JavaScript's `.length` counts them, in UTF-16
code units (`JsText.Utf16Length`): a code point above U+FFFF counts twice
(`Registration.SurrogatePairSample`).

## Model

| member | source | states |
|---|---|---|
| JsText.IsWhitespace | src/app/NewsDashboard/auth/registrationPage.tsx:41 | the character set `trim` removes and `\s` matches: the ECMAScript WhiteSpace and LineTerminator code points |
| JsText.Utf16Length | src/app/NewsDashboard/auth/registrationPage.tsx:53 | `value.length`: between one and two units per character, exactly one per character when none is above U+FFFF |
| JsText.TrimStart | src/app/NewsDashboard/auth/loginPage.tsx:27 | the stored login value never starts with whitespace |
| JsText.Trim | src/app/NewsDashboard/auth/loginPage.tsx:28 | the trimmed value is empty or starts and ends with non-whitespace, and is no longer than the input |
| JsText.TrimSplit | src/app/NewsDashboard/auth/loginPage.tsx:28 | the trimmed value is a contiguous piece of the input with only whitespace before and after it |
| JsText.TrimFrame | src/app/NewsDashboard/auth/loginPage.tsx:28 | every typed value is its trimmed value with only whitespace before and after it |
| JsText.IsBlank | src/app/NewsDashboard/auth/registrationPage.tsx:41 | `!value.trim()`: the trimmed value is empty |
| JsText.BlankIffAllWhitespace | src/app/NewsDashboard/auth/registrationPage.tsx:41 | `!value.trim()` holds exactly when every character of the value is whitespace |
| JsText.TrimOfFramed | src/app/NewsDashboard/auth/loginPage.tsx:28 | trimming whitespace + core + whitespace gives the core, when the core starts and ends with non-whitespace |
| JsText.TrimIgnoresPadding | src/app/NewsDashboard/auth/loginPage.tsx:28 | whitespace added at either end never changes what `trim` returns |
| JsText.TrimAfterTrimStart | src/app/NewsDashboard/auth/loginPage.tsx:27-28 | trimming the stored `trimStart` value gives the same string as trimming the typed value |
| EmailPattern.MatchesEmailPattern | src/app/NewsDashboard/auth/registrationPage.tsx:47 | `/\S+@\S+\.\S+/.test(value)` as a left-to-right search for an `@` with a non-whitespace character before it and a `.` with a non-whitespace run between them and one character after it |
| EmailPattern.MatchesEmailPatternIffRegexTest | src/app/NewsDashboard/auth/registrationPage.tsx:47 | the executable search accepts a string exactly when some span of it matches `\S+@\S+\.\S+` |
| EmailPattern.MatchIgnoresSurroundingWhitespace | src/app/NewsDashboard/auth/loginPage.tsx:28-36 | the pattern accepts the trimmed value exactly when it accepts the typed value |
| EmailPattern.MatchHasAt | src/app/NewsDashboard/auth/registrationPage.tsx:47 | an accepted value contains an `@`, so it is not blank |
| EmailPattern.NoAtNeverMatches | src/app/NewsDashboard/auth/registrationPage.tsx:47 | a value without `@` is never accepted |
| EmailPattern.UnanchoredSample | src/app/NewsDashboard/auth/registrationPage.tsx:47 | the pattern is unanchored: text around an address is accepted |
| EmailPattern.DotRightAfterAtFails | src/app/NewsDashboard/auth/registrationPage.tsx:47 | `ab@.cd` is rejected because the run between `@` and `.` is empty |
| EmailPattern.SpaceBeforeAtFails | src/app/NewsDashboard/auth/registrationPage.tsx:47 | `a @b.c` is rejected because whitespace precedes the `@` |
| AuthCommon.Record | src/app/NewsDashboard/auth/registrationPage.tsx:38-58 | `errs.x = msg` on a failure and `delete errs.x` on a pass: the field has a key exactly when its verdict fails, the key holds the verdict's message, and every other key and value is unchanged |
| AuthCommon.RecordIdempotent | src/app/NewsDashboard/auth/registrationPage.tsx:38-58 | writing the same verdict for the same field twice leaves the same error map as writing it once |
| AuthCommon.WelcomeText | src/app/NewsDashboard/auth/registrationPage.tsx:85 | the success text is "Welcome, ", the user's name and "!", so the name can be read back from it |
| AuthCommon.FailureText | src/app/NewsDashboard/auth/registrationPage.tsx:88-94 | the failure modal shows the error's message, or "Something went wrong!" when the message is empty; it is never empty |
| Registration.Form.With | src/app/NewsDashboard/auth/registrationPage.tsx:33 | the named form field takes the new value and the other fields keep theirs |
| Registration.RuleFor | src/app/NewsDashboard/auth/registrationPage.tsx:40-56 | the rule table: blankness of `value.trim()` first, then the pattern on the raw email or the UTF-16 length of the raw password |
| Registration.NameRule | src/app/NewsDashboard/auth/registrationPage.tsx:40-43 | the name passes exactly when it holds a non-whitespace character, and otherwise fails with "Name is required" |
| Registration.EmailRule | src/app/NewsDashboard/auth/registrationPage.tsx:45-49 | the email passes exactly when the regex matches the raw value; "Email is required" exactly when it is blank; "Email is invalid" for a non-blank value that does not match |
| Registration.EmailWithoutAtIsInvalid | src/app/NewsDashboard/auth/registrationPage.tsx:45-49 | any non-blank value without `@` gets "Email is invalid" |
| Registration.SampleEmailPasses | src/app/NewsDashboard/auth/registrationPage.tsx:45-49 | `a@b.com` leaves no email error |
| Registration.PasswordRule | src/app/NewsDashboard/auth/registrationPage.tsx:51-56 | the password passes exactly when it is non-blank and has at least 6 UTF-16 units; anything shorter fails; "Password is required" exactly when it is blank; "Password must be at least 6 characters" for a non-blank value under 6 units |
| Registration.SubmitAllowed | src/app/NewsDashboard/auth/registrationPage.tsx:62-67 | the submit guard: no error key and every raw field non-empty |
| Registration.SurrogatePairSample | src/app/NewsDashboard/auth/registrationPage.tsx:53-55 | three emoji are three characters but six UTF-16 units, so they pass as a password |
| Registration.SubmitAllowedMeansValid | src/app/NewsDashboard/auth/registrationPage.tsx:62-67 | under the page invariant, an empty error map with non-empty fields means every field passes its rule: non-blank name, matching email, non-blank password of 6 or more UTF-16 units |
| Registration.RegistrationPage.constructor | src/app/NewsDashboard/auth/registrationPage.tsx:22-27 | the page starts with empty fields and no errors, which satisfies the invariant |
| Registration.RegistrationPage.ValidateField | src/app/NewsDashboard/auth/registrationPage.tsx:37-59 | the copy-then-set/delete update leaves exactly `Record(old error, field, RuleFor(field, value))` |
| Registration.RegistrationPage.HandleChange | src/app/NewsDashboard/auth/registrationPage.tsx:31-35 | the raw value is stored in the named field only, that field is re-validated with it, and the invariant is kept |
| Registration.RegistrationPage.HandleRegistration | src/app/NewsDashboard/auth/registrationPage.tsx:61-103 | a request is made exactly when the error map is empty and all three fields are non-empty, and then every field passes its rule; otherwise the outcome is the "Validation Failed" modal; a rejection shows `FailureText` of its message; an acceptance stores the returned user, welcomes them and routes to `/login` |
| Login.Form.With | src/app/NewsDashboard/auth/loginPage.tsx:27 | the named form field takes the new value and the other field keeps its value |
| Login.RuleFor | src/app/NewsDashboard/auth/loginPage.tsx:34-45 | the rule table on the trimmed value: emptiness first, then the pattern or the UTF-16 length |
| Login.EmailRule | src/app/NewsDashboard/auth/loginPage.tsx:34-38 | for a typed value, the email passes exactly when the regex matches it; "Email is required" exactly when it is all whitespace; "Email is invalid" for any other value the regex rejects |
| Login.PasswordRule | src/app/NewsDashboard/auth/loginPage.tsx:40-45 | for a typed value, the password passes exactly when the trimmed value has at least 6 UTF-16 units; "Password is required" exactly when it is all whitespace; "Password must be at least 6 characters" for any other shorter value |
| Login.PasswordIgnoresPadding | src/app/NewsDashboard/auth/loginPage.tsx:28-45 | whitespace typed around a password never changes its verdict |
| Login.PaddedPasswordSample | src/app/NewsDashboard/auth/loginPage.tsx:40-45 | five spaces and a letter pass registration's length check but fail login's with "Password must be at least 6 characters" |
| Login.SubmitAllowed | src/app/NewsDashboard/auth/loginPage.tsx:51 | the submit guard: no error key and both stored fields non-empty |
| Login.SubmitAllowedMeansValid | src/app/NewsDashboard/auth/loginPage.tsx:51 | under the page invariant, an empty error map with non-empty fields means the email matches the pattern and the trimmed password has 6 or more UTF-16 units |
| Login.LoginPage.constructor | src/app/NewsDashboard/auth/loginPage.tsx:20-21 | the page starts with empty fields and no errors, which satisfies the invariant |
| Login.LoginPage.ValidateField | src/app/NewsDashboard/auth/loginPage.tsx:31-48 | the copy-then-set/delete update leaves exactly `Record(old error, field, RuleFor(field, value))` |
| Login.LoginPage.HandleChange | src/app/NewsDashboard/auth/loginPage.tsx:25-29 | `trimStart(value)` is stored in the named field only and has no leading whitespace; the field is re-validated with `trim(value)`; the invariant is kept |
| Login.LoginPage.HandleLogin | src/app/NewsDashboard/auth/loginPage.tsx:50-86 | a request is made exactly when the error map is empty and both fields are non-empty, and then both fields pass their rules; otherwise the outcome is the "Validation Failed" modal; a rejection shows `FailureText` of its message; an acceptance stores the returned user, welcomes them and routes to the dashboard |

## Left out

- The HTTP calls (`axios.post`), their URLs, headers and response parsing. The backend's answer is the `Response` input of the submit methods. A submit that fails validation ignores it.
- The `Swal.fire` modals and `router.push`. They appear only as the title, text and route inside `Outcome`. The model does not capture the order "await the success modal, then navigate".
- The session store of `contextApi.tsx` (`setUser`, and the hook that throws when there is no provider). The user handed to it is the `user` of a `Succeeded` outcome.
- The type declarations of `types/index.ts`. They contain no computation.
- JSX rendering and styling.
- React state batching and the stale `error` closure inside `validateField`. Updates are modelled as sequential, each seeing the previous one's result.
- async/await interleaving and the missing guard against a second submit while one request is pending. These are concurrency.
- Input names other than the page's own fields. `e.target.name` is always one of the rendered inputs, so `Field` has exactly those values.
- Lone surrogates: a JavaScript string may hold an unpaired UTF-16 surrogate, a Dafny `char` cannot, so such input is not modelled; every other string has the same `.length` in the model.
- An `AxiosError` whose `message` is missing. It is represented as the empty string, which `||` treats the same way.
- Full Unicode `\s`: whitespace is the fixed code-point list of the ECMAScript WhiteSpace and LineTerminator productions, including every Unicode space separator listed there. A JavaScript engine built on a later Unicode version could add characters to that list.
