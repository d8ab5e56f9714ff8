/**
 * The login serializer's validation: both credentials must be present, the
 * authentication backend must recognise them, and the account must be
 * allowed to authenticate. The backend is a parameter of the model.
 */
module LoginSerializer {
  import opened Wrappers
  import opened RequestData
  import opened Accounts

  const MissingCredentialsMessage: string := "Both email and password are required."
  const InvalidCredentialsMessage: string := "Invalid credentials."
  const DeactivatedMessage: string := "User account is deactivated."

  /** A value of the validated dictionary: submitted text, or the user
      object the serializer inserts under "user". */
  datatype LoginValue = Given(text: string) | AuthenticatedUser(user: User)

  /** The backend: the user that the credentials identify, if any. */
  type Authenticator = (string, string) -> Option<User>

  /** The login checks in their fixed order. On success the payload is
      returned with the authenticated user added under "user". */
  function Validate(data: Data, authenticate: Authenticator): (r: Result<map<string, LoginValue>, Error>)
    ensures ("email" !in data || "password" !in data) ==>
      r == Failure(Invalid(MissingCredentialsMessage))
    ensures "email" in data && "password" in data ==>
      var found := authenticate(data["email"], data["password"]);
      && (found.None? ==> r == Failure(Invalid(InvalidCredentialsMessage)))
      && (found.Some? && !found.value.isActive ==> r == Failure(Invalid(DeactivatedMessage)))
      && (found.Some? && found.value.isActive ==> r.Success? && "user" in r.value && r.value["user"] == AuthenticatedUser(found.value))
    ensures r.Success? ==> r.value.Keys == data.Keys + {"user"}
    ensures r.Success? ==> forall k | k in data && k != "user" :: r.value[k] == Given(data[k])
  {
    var email := Get(data, "email");
    var password := Get(data, "password");
    if email.None? || password.None? then
      Failure(Invalid(MissingCredentialsMessage))
    else
      match authenticate(email.value, password.value)
      case None => Failure(Invalid(InvalidCredentialsMessage))
      case Some(user) =>
        if !user.isActive then Failure(Invalid(DeactivatedMessage))
        else Success(map k | k in data.Keys + {"user"} :: if k == "user" then AuthenticatedUser(user) else Given(data[k]))
  }

  /** Login succeeds exactly when both credentials are present and the
      backend returns a user that may authenticate. */
  lemma ValidateSucceedsIff(data: Data, authenticate: Authenticator)
    ensures Validate(data, authenticate).Success? <==>
      && "email" in data && "password" in data
      && authenticate(data["email"], data["password"]).Some?
      && authenticate(data["email"], data["password"]).value.isActive
  {
  }

  /** A payload missing a credential is rejected before the backend is
      consulted: every backend gives the same answer. */
  lemma MissingCredentialIgnoresBackend(data: Data, a: Authenticator, b: Authenticator)
    requires "email" !in data || "password" !in data
    ensures Validate(data, a) == Validate(data, b)
  {
  }

  /** As written: a removed account that the backend reads back from the
      database logs in, whatever status commands followed the removal,
      because the cleared `is_active` was never stored and login never
      looks at the status. With no command after the removal, the user
      that logs in is REMOVED. */
  lemma RemovedAccountLogsIn(data: Data, authenticate: Authenticator, u: User, cs: seq<Command>)
    requires "email" in data && "password" in data
    requires authenticate(data["email"], data["password"]) == Some(Reload(Run(Remove(u), cs)))
    ensures Validate(data, authenticate).Success?
    ensures |cs| == 0 ==> Validate(data, authenticate).value["user"].user.status == Choices.Removed
  {
  }

  /** Corrected: with `is_active` stored in a column, a removed account that
      the backend reads back is turned away as deactivated, whatever status
      commands followed the removal. */
  lemma RemovedAccountRejected(data: Data, authenticate: Authenticator, u: User, cs: seq<Command>)
    requires "email" in data && "password" in data
    requires authenticate(data["email"], data["password"]) == Some(ReloadWithActiveColumn(Run(Remove(u), cs)))
    ensures Validate(data, authenticate) == Failure(Invalid(DeactivatedMessage))
  {
    RemoveIsSticky(u, cs);
  }

  /** Deactivation changes only the status, so a deactivated account that
      was able to authenticate still logs in. */
  lemma DeactivatedAccountStillLogsIn(data: Data, authenticate: Authenticator, u: User)
    requires "email" in data && "password" in data
    requires u.isActive
    requires authenticate(data["email"], data["password"]) == Some(Deactivate(u))
    ensures Validate(data, authenticate).Success?
    ensures Validate(data, authenticate).value["user"].user.status == Choices.Inactive
  {
  }
}
