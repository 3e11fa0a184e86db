/**
 * The client-side session store (useAuthStore): the signed-in user and the
 * loading / error flags of registration. Local login and registration only
 * check that their arguments are non-empty; registration through the server
 * takes the server's reply as a parameter.
 */
module AuthStore {
  import opened Wrappers
  import opened Text

  const UserRole := "USER"
  const FallbackRole := "user"
  const RegistrationFailed := "Registration failed"
  const NullUserRead := "Cannot read properties of null (reading 'username')"
  const NullMessageRead := "Cannot read properties of null (reading 'message')"

  datatype User = User(username: string, name: Option<string>, email: Option<string>, role: string)

  /** The fields of a registration reply body, each possibly missing. */
  datatype UserFields = UserFields(username: Option<string>, name: Option<string>, email: Option<string>, role: Option<string>)

  /** A reply body as `response.json()` reads it. */
  datatype Body<T> = Parsed(value: T) | NullBody | Unparseable(message: string)

  /** How the registration request ended. */
  datatype RegisterReply =
    | NetworkFailure(message: string)                  // fetch itself rejected
    | ErrorStatus(status: int, errorBody: Body<Option<string>>) // not ok; the body's `message` field, if the body parses
    | Accepted(body: Body<UserFields>)                  // ok

  function Or(s: Option<string>, fallback: string): string { if Truthy(s) then s.value else fallback }

  function StatusError(status: int): string { "HTTP " + IntToString(status) + ": Registration failed" }

  /** The user a successful registration stores: each field from the reply, or its fallback. */
  function RegisteredUser(fields: UserFields, name: string, username: string): (u: User)
    ensures u.username == (if Truthy(fields.username) then fields.username.value else username)
    ensures u.name == Some(if Truthy(fields.name) then fields.name.value else name)
    ensures u.email == Some(if Truthy(fields.email) then fields.email.value else username)
    ensures u.role == (if Truthy(fields.role) then fields.role.value else FallbackRole)
    ensures u.role != "" && (username != "" ==> u.username != "")
  {
    User(Or(fields.username, username), Some(Or(fields.name, name)), Some(Or(fields.email, username)),
         Or(fields.role, FallbackRole))
  }

  /** The user registered from a reply, or the message of the error thrown on the way. */
  function RegisterOutcome(reply: RegisterReply, name: string, username: string): (r: Result<User, string>)
    ensures r.Success? ==> reply.Accepted? && reply.body.Parsed?
    ensures reply.NetworkFailure? ==> r == Failure(reply.message)
    ensures reply.ErrorStatus? ==> r.Failure? && r.error != ""
    ensures r.Success? ==> r.value.role != "" && (username != "" ==> r.value.username != "")
    ensures reply.Accepted? && reply.body.Parsed? ==> r == Success(RegisteredUser(reply.body.value, name, username))
    ensures reply == Accepted(NullBody) ==> r == Failure(NullUserRead)
    ensures reply.Accepted? && reply.body.Unparseable? ==> r == Failure(reply.body.message)
  {
    match reply
    case NetworkFailure(message) => Failure(message)
    case ErrorStatus(status, Parsed(message)) => Failure(if Truthy(message) then message.value else StatusError(status))
    case ErrorStatus(status, NullBody) => Failure(NullMessageRead)
    case ErrorStatus(status, Unparseable(_)) => Failure(StatusError(status))
    case Accepted(Parsed(fields)) => Success(RegisteredUser(fields, name, username))
    case Accepted(NullBody) => Failure(NullUserRead)
    case Accepted(Unparseable(message)) => Failure(message)
  }

  class AuthStore {
    var user: Option<User>
    var isAuthenticated: bool
    var loading: bool
    var error: Option<string>

    constructor ()
      ensures user == None && !isAuthenticated && !loading && error == None
    {
      user, isAuthenticated, loading, error := None, false, false, None;
    }

    /** login: succeeds exactly when both arguments are non-empty; a failure changes nothing. */
    method Login(username: string, password: string) returns (ok: bool)
      modifies this
      ensures ok <==> username != "" && password != ""
      ensures ok ==> user == Some(User(username, None, None, UserRole)) && isAuthenticated
      ensures !ok ==> user == old(user) && isAuthenticated == old(isAuthenticated)
      ensures loading == old(loading) && error == old(error)
    {
      if username != "" && password != "" {
        user, isAuthenticated := Some(User(username, None, None, UserRole)), true;
        return true;
      }
      return false;
    }

    /** register: succeeds exactly when all three arguments are non-empty; the e-mail becomes the username. */
    method Register(name: string, email: string, password: string) returns (ok: bool)
      modifies this
      ensures ok <==> name != "" && email != "" && password != ""
      ensures ok ==> user == Some(User(email, Some(name), Some(email), UserRole)) && isAuthenticated
      ensures !ok ==> user == old(user) && isAuthenticated == old(isAuthenticated)
      ensures loading == old(loading) && error == old(error)
    {
      if name != "" && email != "" && password != "" {
        user, isAuthenticated := Some(User(email, Some(name), Some(email), UserRole)), true;
        return true;
      }
      return false;
    }

    /**
     * registerViaApi: loading while the request runs; on success the user from the reply
     * is signed in, on failure the error is recorded and the session is left as it was.
     */
    method RegisterViaApi(name: string, username: string, password: string, reply: RegisterReply) returns (ok: bool)
      modifies this
      ensures !loading
      ensures ok <==> RegisterOutcome(reply, name, username).Success?
      ensures ok ==> user == Some(RegisterOutcome(reply, name, username).value) && isAuthenticated && error == None
      ensures !ok ==>
        && error == Some(RegisterOutcome(reply, name, username).error)
        && user == old(user) && isAuthenticated == old(isAuthenticated)
    {
      loading, error := true, None;
      match RegisterOutcome(reply, name, username)
      case Success(u) =>
        user, isAuthenticated, loading := Some(u), true, false;
        ok := true;
      case Failure(message) =>
        error, loading := Some(message), false;
        ok := false;
    }

    /** logout: signed out; loading and error untouched. */
    method Logout()
      modifies this
      ensures user == None && !isAuthenticated
      ensures loading == old(loading) && error == old(error)
    {
      user, isAuthenticated := None, false;
    }

    /** setError */
    method SetError(e: Option<string>)
      modifies this
      ensures error == e
      ensures user == old(user) && isAuthenticated == old(isAuthenticated) && loading == old(loading)
    {
      error := e;
    }
  }

  /**
   * A refused registration reports the body's message when there is one, and otherwise
   * the status: "HTTP <status>: Registration failed"; a body that is JSON null fails
   * reading its message instead.
   */
  lemma ErrorStatusMessage(status: int, body: Body<Option<string>>, name: string, username: string)
    ensures var r := RegisterOutcome(ErrorStatus(status, body), name, username);
      && r.Failure?
      && (body.Parsed? && Truthy(body.value) ==> r.error == body.value.value)
      && (body.Parsed? && !Truthy(body.value) ==> r.error == StatusError(status))
      && (body.Unparseable? ==> r.error == StatusError(status))
      && (body.NullBody? ==> r.error == NullMessageRead)
  {
  }

  /** Registration succeeds exactly on an accepted reply whose body parses to an object. */
  lemma RegisterSucceedsIff(reply: RegisterReply, name: string, username: string)
    ensures RegisterOutcome(reply, name, username).Success? <==> reply.Accepted? && reply.body.Parsed?
  {
  }
}
