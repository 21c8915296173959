/**
 * What the login and registration pages share: the outcome of one field
 * check, the sparse error map it is written into, and the shapes of a submit
 * (the backend's answer, taken as an input, and the modal or navigation the
 * page ends in).
 */
module AuthCommon {

  /** The verdict of one field rule: passes, or fails with the message to show. */
  datatype Check = Pass | Fail(message: string)

  /**
   * Writes a verdict into a copy of the error map: a failure sets the field's
   * entry, a pass deletes it (the `errs.x = ...` / `delete errs.x` of the pages).
   */
  function Record<K(!new)>(errs: map<K, string>, f: K, c: Check): (r: map<K, string>)
    ensures f in r <==> c.Fail?
    ensures f in r ==> r[f] == c.message
    ensures forall g :: g != f ==> (g in r <==> g in errs)
    ensures forall g :: g != f && g in r ==> r[g] == errs[g]
  {
    if c.Fail? then errs[f := c.message] else errs - {f}
  }

  /** Writing the same verdict for the same field a second time changes nothing. */
  lemma RecordIdempotent<K(!new)>(errs: map<K, string>, f: K, c: Check)
    ensures Record(Record(errs, f, c), f, c) == Record(errs, f, c)
  {
    var once := Record(errs, f, c);
    assert Record(once, f, c).Keys == once.Keys;
  }

  /** The user object the backend returns and the page hands to the session store. */
  datatype User = User(id: string, name: string, email: string)

  /**
   * What the backend answers to the POST a submit makes: the user, or a
   * rejection (network error or non-2xx status) carrying the error's
   * `message`, with "" standing for a missing or empty message.
   */
  datatype Response = Accepted(user: User) | Rejected(message: string)

  /**
   * How a submit ends: the validation modal with no request; the failure
   * modal after a rejected request; or, after an accepted one, the user
   * stored in the session, the welcome modal and the route navigated to.
   */
  datatype Outcome =
    | ValidationFailed(title: string, text: string)
    | RequestFailed(title: string, text: string)
    | Succeeded(user: User, title: string, text: string, route: string)
  {
    /** Whether the submit reached the network. */
    predicate Requested() {
      !ValidationFailed?
    }
  }

  const Fallback := "Something went wrong!"

  /** `axiosError.message || "Something went wrong!"`: the failure modal never shows an empty text. */
  function FailureText(message: string): (text: string)
    ensures text != []
    ensures text == message || (message == [] && text == Fallback)
  {
    if message != [] then message else Fallback
  }

  /** The text of the success modal, `Welcome, ${user.name}!`: the user's name sits between the greeting and the `!`. */
  function WelcomeText(user: User): (text: string)
    ensures |text| == |user.name| + 10
    ensures text[..9] == "Welcome, " && text[9..|text| - 1] == user.name && text[|text| - 1] == '!'
  {
    "Welcome, " + user.name + "!"
  }
}
