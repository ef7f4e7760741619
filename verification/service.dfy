/**
 * The authentication service: register, login, refresh, logout and me, each a pure
 * transition from a store to an answer and the next store. Time is the integer `now`
 * (milliseconds); the freshly generated refresh secret is the parameter `newSecret`.
 */
module AuthService {
  import opened Wrappers
  import opened Hashing
  import opened Messages
  import opened Types
  import opened Db

  /** The one error login answers, whichever check failed. */
  const SignInFailure := Failure(BadRequest, SigninFailed)

  /** Login's answer together with the refresh secret it issued. */
  datatype LoginIssued = LoginIssued(accessToken: AccessToken, refreshPlain: string)

  /** `s'` is `s` plus one unrevoked record for `owner`, created from `secret`, expiring at `exp`. */
  predicate Appended(s: Store, s': Store, owner: nat, secret: string, exp: nat) {
    && s'.users == s.users
    && |s'.tokens| == |s.tokens| + 1 && s'.tokens[..|s.tokens|] == s.tokens
    && var t := s'.tokens[|s.tokens|];
       t.id == s.nextTokenId && t.userId == owner && !t.revoked && t.expiresAt == exp
       && Verify(t.tokenHash, secret)
  }

  /**
   * `s'` is `s` after rotating record `i`: that record is revoked, every other record is
   * unchanged, and one new unrevoked record for the same owner is appended.
   */
  predicate Rotated(s: Store, s': Store, i: nat, secret: string, exp: nat) {
    && i < |s.tokens|
    && s'.users == s.users
    && |s'.tokens| == |s.tokens| + 1
    && s'.tokens[i] == s.tokens[i].(revoked := true)
    && (forall j :: 0 <= j < |s.tokens| && j != i ==> s'.tokens[j] == s.tokens[j])
    && var t := s'.tokens[|s.tokens|];
       t.id == s.nextTokenId && t.userId == s.tokens[i].userId && !t.revoked && t.expiresAt == exp
       && Verify(t.tokenHash, secret)
  }

  // ---------------------------------------------------------------- register

  function Register(s: Store, body: RegisterBody): (r: Step<RegisterResponse>)
    ensures EmailTaken(s, body.email) ==> r == Step(Err(Failure(Conflict, EmailInUse)), s)
    ensures !EmailTaken(s, body.email) ==>
      && r.result == Ok(RegisterResponse(s.nextUserId, body.email))
      && r.next.tokens == s.tokens
      && |r.next.users| == |s.users| + 1 && r.next.users[..|s.users|] == s.users
      && var u := r.next.users[|s.users|];
         u.id == s.nextUserId && u.email == body.email && u.role == Some(body.role)
         && u.firstName == Some(body.firstName) && u.lastName == Some(body.lastName)
         && Verify(u.hashedPassword, body.password)
  {
    if FindUserByEmail(s.users, body.email).Some? then
      Step(Err(Failure(Conflict, EmailInUse)), s)
    else
      var s' := CreateUser(s, Some(body.firstName), Some(body.lastName), body.email, body.password, Some(body.role));
      var u := s'.users[|s.users|];
      Step(Ok(RegisterResponse(u.id, u.email)), s')
  }

  // ---------------------------------------------------------------- login

  /** The user holding `email` exists and its stored hash verifies `password`. */
  predicate CredentialsValid(s: Store, c: Credentials) {
    exists i :: 0 <= i < |s.users| && s.users[i].email == c.email && Verify(s.users[i].hashedPassword, c.password)
  }

  /**
   * Login as evidently intended: on success it issues an access token and a refresh secret
   * and hands both back.
   */
  function LoginWithRefresh(s: Store, cfg: Config, body: Credentials, now: nat, newSecret: string): (r: Step<LoginIssued>)
    ensures r.result.Err? ==> r == Step(Err(SignInFailure), s)
    ensures UsersWf(s) ==> (r.result.Ok? <==> CredentialsValid(s, body))
    ensures r.result.Ok? ==>
      && r.result.value.refreshPlain == newSecret
      && var a := r.result.value.accessToken;
         && (exists i :: 0 <= i < |s.users| && s.users[i].id == a.userId && s.users[i].role == a.role
               && s.users[i].email == body.email && Verify(s.users[i].hashedPassword, body.password))
         && a.expiresAt == now + cfg.accessTtl
         && Appended(s, r.next, a.userId, newSecret, RefreshExpiry(cfg, now))
  {
    match FindUserByEmail(s.users, body.email)
    case None => Step(Err(SignInFailure), s)
    case Some(i) =>
      var user := s.users[i];
      if !Verify(user.hashedPassword, body.password) then Step(Err(SignInFailure), s)
      else
        var access := SignAccess(cfg, user, now);
        Step(Ok(LoginIssued(access, newSecret)), Issue(s, user.id, newSecret, RefreshExpiry(cfg, now)))
  }

  /**
   * Login as written: the refresh record is persisted, but only the access token is
   * returned, so the issued secret never leaves the service.
   */
  function Login(s: Store, cfg: Config, body: Credentials, now: nat, newSecret: string): (r: Step<LoginResponse>)
    ensures r.result.Err? ==> r == Step(Err(SignInFailure), s)
    ensures UsersWf(s) ==> (r.result.Ok? <==> CredentialsValid(s, body))
    ensures r.result.Ok? ==>
      var a := r.result.value.accessToken;
      && (exists i :: 0 <= i < |s.users| && s.users[i].id == a.userId && s.users[i].role == a.role
            && s.users[i].email == body.email && Verify(s.users[i].hashedPassword, body.password))
      && a.expiresAt == now + cfg.accessTtl
      && Appended(s, r.next, a.userId, newSecret, RefreshExpiry(cfg, now))
  {
    var st := LoginWithRefresh(s, cfg, body, now, newSecret);
    match st.result
    case Err(f) => Step(Err(f), st.next)
    case Ok(issued) => Step(Ok(LoginResponse(issued.accessToken)), st.next)
  }

  // ---------------------------------------------------------------- refresh

  /**
   * Refresh: the secret comes from the cookie only. The first active record verifying it is
   * revoked, its replacement is created, and only then is the owner looked up.
   */
  function Refresh(s: Store, cfg: Config, cookie: Option<string>, now: nat, newSecret: string): (r: Step<RefreshResponse>)
    ensures !Truthy(cookie) ==> r == Step(Err(Failure(UnauthorizedStatus, NoRefreshToken)), s)
    ensures Truthy(cookie) && (forall j :: 0 <= j < |s.tokens| ==> !Matches(s.tokens[j], now, cookie.value)) ==>
      r == Step(Err(Failure(UnauthorizedStatus, InvalidRefreshToken)), s)
    ensures Truthy(cookie) && FirstActiveMatch(s.tokens, now, cookie.value).Some? ==>
      var i := FirstActiveMatch(s.tokens, now, cookie.value).value;
      var owner := s.tokens[i].userId;
      && Rotated(s, r.next, i, newSecret, RefreshExpiry(cfg, now))
      && (r.result.Ok? <==> exists k :: 0 <= k < |s.users| && s.users[k].id == owner)
      && (r.result.Err? ==> r.result.failure == Failure(UnauthorizedStatus, UserNotFound))
      && (r.result.Ok? ==>
            var a := r.result.value.accessToken;
            && r.result.value.newRefreshPlain == newSecret
            && a.userId == owner && a.expiresAt == now + cfg.accessTtl
            && exists k :: 0 <= k < |s.users| && s.users[k].id == owner && s.users[k].role == a.role)
  {
    if !Truthy(cookie) then Step(Err(Failure(UnauthorizedStatus, NoRefreshToken)), s)
    else
      match FirstActiveMatch(s.tokens, now, cookie.value)
      case None => Step(Err(Failure(UnauthorizedStatus, InvalidRefreshToken)), s)
      case Some(i) =>
        var found := s.tokens[i];
        var s' := Issue(Revoke(s, i), found.userId, newSecret, RefreshExpiry(cfg, now));
        match FindUserById(s'.users, found.userId)
        case None => Step(Err(Failure(UnauthorizedStatus, UserNotFound)), s')
        case Some(k) => Step(Ok(RefreshResponse(SignAccess(cfg, s'.users[k], now), newSecret)), s')
  }

  // ---------------------------------------------------------------- logout

  /** Logout: always succeeds; revokes the first active record verifying the cookie, if any. */
  function Logout(s: Store, cookie: Option<string>, now: nat): (r: Step<LogoutResponse>)
    ensures r.result == Ok(LogoutResponse(true))
    ensures r.next.users == s.users && r.next.nextTokenId == s.nextTokenId && |r.next.tokens| == |s.tokens|
    ensures !Truthy(cookie) ==> r.next == s
    ensures forall j :: 0 <= j < |s.tokens| && r.next.tokens[j] != s.tokens[j] ==>
      && Truthy(cookie) && Matches(s.tokens[j], now, cookie.value)
      && r.next.tokens[j] == s.tokens[j].(revoked := true)
      && forall k :: 0 <= k < j ==> !Matches(s.tokens[k], now, cookie.value) && r.next.tokens[k] == s.tokens[k]
    ensures Truthy(cookie) ==> forall j :: 0 <= j < |s.tokens| && Matches(s.tokens[j], now, cookie.value) ==>
      exists k :: 0 <= k <= j && r.next.tokens[k].revoked && !s.tokens[k].revoked
  {
    if !Truthy(cookie) then Step(Ok(LogoutResponse(true)), s)
    else
      match FirstActiveMatch(s.tokens, now, cookie.value)
      case None => Step(Ok(LogoutResponse(true)), s)
      case Some(i) => Step(Ok(LogoutResponse(true)), Revoke(s, i))
  }

  // ---------------------------------------------------------------- me

  /** The profile of a user, without the password hash. */
  function Me(s: Store, userId: nat): (r: Result<PublicUser>)
    ensures r.Err? <==> forall j :: 0 <= j < |s.users| ==> s.users[j].id != userId
    ensures r.Err? ==> r.failure == Failure(NotFoundStatus, NotFound)
    ensures r.Ok? ==> exists j :: 0 <= j < |s.users| && s.users[j].id == userId && r.value == Redact(s.users[j])
  {
    match FindUserById(s.users, userId)
    case None => Err(Failure(NotFoundStatus, NotFound))
    case Some(k) => Ok(Redact(s.users[k]))
  }
}
