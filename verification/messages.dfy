/** The error vocabulary shared by the service, the routes, the validators and the guards. */
module Messages {

  /** One constructor per distinct error message. */
  datatype ErrorKind =
    | Unauthorized
    | Forbidden
    | InvalidCredentials
    | EmailInUse
    | EmailPasswordRequired
    | MissingRequiredFields
    | NoRefreshToken
    | InvalidRefreshToken
    | UserNotFound
    | NotFound

  /** The sign-in failure is not a kind of its own: it carries the same message as invalid credentials. */
  const SigninFailed: ErrorKind := InvalidCredentials

  /** The user-facing text of each error. */
  function Message(k: ErrorKind): string {
    match k
    case Unauthorized => "Unauthorized"
    case Forbidden => "Forbidden"
    case InvalidCredentials => "Invalid credentials"
    case EmailInUse => "Email already in use"
    case EmailPasswordRequired => "email and password required"
    case MissingRequiredFields => "missing required fields"
    case NoRefreshToken => "No refresh token"
    case InvalidRefreshToken => "Invalid refresh token"
    case UserNotFound => "User not found"
    case NotFound => "Not found"
  }

  /** Distinct kinds have distinct texts, so a message identifies its kind. */
  lemma MessageInjective(a: ErrorKind, b: ErrorKind)
    ensures Message(a) == Message(b) ==> a == b
  {
    if a != b {
      match a
      case Unauthorized => assert Message(a)[0] == 'U' && Message(a)[1] == 'n';
      case Forbidden => assert Message(a)[0] == 'F';
      case InvalidCredentials => assert Message(a)[8] == 'c';
      case EmailInUse => assert Message(a)[0] == 'E';
      case EmailPasswordRequired => assert Message(a)[0] == 'e';
      case MissingRequiredFields => assert Message(a)[0] == 'm';
      case NoRefreshToken => assert Message(a)[0] == 'N' && Message(a)[1] == 'o' && Message(a)[2] == ' ';
      case InvalidRefreshToken => assert Message(a)[8] == 'r';
      case UserNotFound => assert Message(a)[0] == 'U' && Message(a)[1] == 's';
      case NotFound => assert Message(a)[2] == 't';
    }
  }

  /** HTTP status codes used by the error helpers. */
  const BadRequest: nat := 400
  const UnauthorizedStatus: nat := 401
  const ForbiddenStatus: nat := 403
  const NotFoundStatus: nat := 404
  const Conflict: nat := 409

  /** An HTTP error: a status and the kind whose message is sent. */
  datatype Failure = Failure(status: nat, kind: ErrorKind)

  /** What a service call answers: a value, or the error it throws. */
  datatype Result<+T> = Ok(value: T) | Err(failure: Failure)
}
