/** Roles, request bodies and response bodies of the authentication API. */
module Types {
  import opened Wrappers

  /** Every role a user may hold. */
  datatype Role = Admin | Publisher | Reader

  function RoleName(r: Role): string {
    match r
    case Admin => "admin"
    case Publisher => "publisher"
    case Reader => "reader"
  }

  /** Registration body as the service receives it, every field typed as a string. */
  datatype RegisterBody = RegisterBody(
    firstName: string, lastName: string, email: string, password: string, role: string)

  /** Login body as the service receives it. */
  datatype Credentials = Credentials(email: string, password: string)

  /** A request body as it arrives on the wire: any field may be absent. */
  datatype RawRegisterBody = RawRegisterBody(
    firstName: Option<string>, lastName: Option<string>, email: Option<string>,
    password: Option<string>, role: Option<string>)

  datatype RawLoginBody = RawLoginBody(email: Option<string>, password: Option<string>)

  /**
   * The claims of a signed access token: the subject, its role and the instant the
   * token stops verifying. Signing itself is not modelled; the token is this value.
   */
  datatype AccessToken = AccessToken(userId: nat, role: Option<string>, expiresAt: nat)

  datatype RegisterResponse = RegisterResponse(id: nat, email: string)
  datatype LoginResponse = LoginResponse(accessToken: AccessToken)
  datatype RefreshResponse = RefreshResponse(accessToken: AccessToken, newRefreshPlain: string)
  datatype LogoutResponse = LogoutResponse(ok: bool)

  /** A user profile with the password hash removed. */
  datatype PublicUser = PublicUser(
    id: nat, firstName: Option<string>, lastName: Option<string>, email: string, role: Option<string>)
}
