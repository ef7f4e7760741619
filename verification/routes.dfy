/**
 * The inline route handlers: an older copy of the service logic that replies directly
 * with a status, a JSON body and a cookie action. It differs from the service in that it
 * checks email and password inline, takes the refresh secret from the request body when
 * the cookie is absent, and hands the issued secret back in a cookie.
 */
module AuthRoutes {
  import opened Wrappers
  import opened Hashing
  import opened Messages
  import opened Types
  import opened Db
  import opened AuthService

  /** What the reply does to the refresh cookie. */
  datatype CookieAction = KeepCookie | SetCookie(secret: string, maxAgeSeconds: nat) | ClearCookie

  /** The JSON body of a reply. */
  datatype ReplyBody =
    | MessageBody(message: string)
    | RegisteredBody(id: nat, email: string)
    | TokenBody(accessToken: AccessToken)
    | OkBody(ok: bool)
    | ProfileBody(profile: PublicUser)
      /** `{error: …}` from the application's error handler; the runtime's message text is not modelled. */
    | ServerErrorBody

  datatype Reply = Reply(status: nat, body: ReplyBody, cookie: CookieAction)

  /** A handled request: the reply sent and the store after it. */
  datatype Handled = Handled(reply: Reply, next: Store)

  const Ok200: nat := 200
  const Created201: nat := 201
  const InternalServerError: nat := 500

  /**
   * A handler that throws: the error carries no status code, so the application's error
   * handler answers 500.
   */
  const Crashed := Reply(InternalServerError, ServerErrorBody, KeepCookie)

  function ErrorReply(status: nat, kind: ErrorKind): Reply {
    Reply(status, MessageBody(Message(kind)), KeepCookie)
  }

  /** The reply a service failure maps to. */
  function FailureReply(f: Failure): Reply {
    ErrorReply(f.status, f.kind)
  }

  /** The cookie lifetime, in seconds, for a refresh lifetime in days. */
  function CookieMaxAge(cfg: Config): (secs: nat)
    ensures secs * 1000 == cfg.refreshDays * DayMillis
  {
    60 * 60 * 24 * cfg.refreshDays
  }

  /** The cookie that carries a newly issued refresh secret. */
  function RefreshCookie(cfg: Config, secret: string): CookieAction {
    SetCookie(secret, CookieMaxAge(cfg))
  }

  // ---------------------------------------------------------------- /register

  /**
   * Registration. The body is unpacked with no fallback, so a missing body makes the
   * handler throw before any check.
   */
  function PostRegister(s: Store, request: Option<RawRegisterBody>): (h: Handled)
    ensures request.None? ==> h == Handled(Crashed, s)
    ensures request.Some? && (!Truthy(request.value.email) || !Truthy(request.value.password)) ==>
      h == Handled(ErrorReply(BadRequest, EmailPasswordRequired), s)
    ensures request.Some? && Truthy(request.value.email) && Truthy(request.value.password)
            && EmailTaken(s, request.value.email.value) ==>
      h == Handled(ErrorReply(Conflict, EmailInUse), s)
    ensures request.Some? && Truthy(request.value.email) && Truthy(request.value.password)
            && !EmailTaken(s, request.value.email.value) ==>
      var body := request.value;
      && h.reply == Reply(Created201, RegisteredBody(s.nextUserId, body.email.value), KeepCookie)
      && h.next.tokens == s.tokens
      && |h.next.users| == |s.users| + 1 && h.next.users[..|s.users|] == s.users
      && var u := h.next.users[|s.users|];
         u.id == s.nextUserId && u.email == body.email.value && u.role == body.role
         && u.firstName == body.firstName && u.lastName == body.lastName
         && Verify(u.hashedPassword, body.password.value)
  {
    match request
    case None => Handled(Crashed, s)
    case Some(body) =>
      if !Truthy(body.email) || !Truthy(body.password) then
        Handled(ErrorReply(BadRequest, EmailPasswordRequired), s)
      else if FindUserByEmail(s.users, body.email.value).Some? then
        Handled(ErrorReply(Conflict, EmailInUse), s)
      else
        var s' := CreateUser(s, body.firstName, body.lastName, body.email.value, body.password.value, body.role);
        var u := s'.users[|s.users|];
        Handled(Reply(Created201, RegisteredBody(u.id, u.email), KeepCookie), s')
  }

  // ---------------------------------------------------------------- /login

  /** Login. Like registration, a missing body makes the handler throw. */
  function PostLogin(s: Store, cfg: Config, request: Option<Credentials>, now: nat, newSecret: string): (h: Handled)
    ensures request.None? ==> h == Handled(Crashed, s)
    ensures request.Some? && h.reply.status != Ok200 ==> h == Handled(ErrorReply(BadRequest, InvalidCredentials), s)
    ensures request.Some? && UsersWf(s) ==> (h.reply.status == Ok200 <==> CredentialsValid(s, request.value))
    ensures h.reply.status == Ok200 ==>
      && request.Some? && h.reply.body.TokenBody? && h.reply.cookie == SetCookie(newSecret, CookieMaxAge(cfg))
      && var a := h.reply.body.accessToken;
         && (exists i :: 0 <= i < |s.users| && s.users[i].id == a.userId && s.users[i].role == a.role
               && s.users[i].email == request.value.email && Verify(s.users[i].hashedPassword, request.value.password))
         && a.expiresAt == now + cfg.accessTtl
         && Appended(s, h.next, a.userId, newSecret, RefreshExpiry(cfg, now))
  {
    match request
    case None => Handled(Crashed, s)
    case Some(body) =>
      match FindUserByEmail(s.users, body.email)
      case None => Handled(ErrorReply(BadRequest, InvalidCredentials), s)
      case Some(i) =>
        var user := s.users[i];
        if !Verify(user.hashedPassword, body.password) then Handled(ErrorReply(BadRequest, InvalidCredentials), s)
        else
          var access := SignAccess(cfg, user, now);
          var s' := Issue(s, user.id, newSecret, RefreshExpiry(cfg, now));
          Handled(Reply(Ok200, TokenBody(access), RefreshCookie(cfg, newSecret)), s')
  }

  // ---------------------------------------------------------------- /refresh

  /** The presented secret: the cookie, or the body's `refreshToken` when the cookie is falsy. */
  function PresentedSecret(cookie: Option<string>, bodyToken: Option<string>): (t: Option<string>)
    ensures Truthy(t) <==> Truthy(cookie) || Truthy(bodyToken)
    ensures Truthy(cookie) ==> t == cookie
    ensures !Truthy(cookie) ==> t == bodyToken
  {
    OrElse(cookie, bodyToken)
  }

  function PostRefresh(s: Store, cfg: Config, cookie: Option<string>, bodyToken: Option<string>,
                       now: nat, newSecret: string): (h: Handled)
    ensures !Truthy(cookie) && !Truthy(bodyToken) ==> h == Handled(ErrorReply(UnauthorizedStatus, NoRefreshToken), s)
    ensures var token := PresentedSecret(cookie, bodyToken);
      Truthy(token) && FirstActiveMatch(s.tokens, now, token.value).None? ==>
        h == Handled(ErrorReply(UnauthorizedStatus, InvalidRefreshToken), s)
    ensures var token := PresentedSecret(cookie, bodyToken);
      Truthy(token) && FirstActiveMatch(s.tokens, now, token.value).Some? ==>
        var i := FirstActiveMatch(s.tokens, now, token.value).value;
        && Rotated(s, h.next, i, newSecret, RefreshExpiry(cfg, now))
        && (h.reply.status == Ok200 <==> exists k :: 0 <= k < |s.users| && s.users[k].id == s.tokens[i].userId)
        && (h.reply.status != Ok200 ==> h.reply == ErrorReply(UnauthorizedStatus, UserNotFound))
        && (h.reply.status == Ok200 ==>
              && h.reply.cookie == SetCookie(newSecret, CookieMaxAge(cfg))
              && h.reply.body.TokenBody?
              && var a := h.reply.body.accessToken;
                 && a.userId == s.tokens[i].userId && a.expiresAt == now + cfg.accessTtl
                 && exists k :: 0 <= k < |s.users| && s.users[k].id == a.userId && s.users[k].role == a.role)
  {
    var token := PresentedSecret(cookie, bodyToken);
    if !Truthy(token) then Handled(ErrorReply(UnauthorizedStatus, NoRefreshToken), s)
    else
      match FirstActiveMatch(s.tokens, now, token.value)
      case None => Handled(ErrorReply(UnauthorizedStatus, InvalidRefreshToken), s)
      case Some(i) =>
        var found := s.tokens[i];
        var s' := Issue(Revoke(s, i), found.userId, newSecret, RefreshExpiry(cfg, now));
        match FindUserById(s'.users, found.userId)
        case None => Handled(ErrorReply(UnauthorizedStatus, UserNotFound), s')
        case Some(k) =>
          var access := SignAccess(cfg, s'.users[k], now);
          Handled(Reply(Ok200, TokenBody(access), RefreshCookie(cfg, newSecret)), s')
  }

  // ---------------------------------------------------------------- /logout

  function PostLogout(s: Store, cookie: Option<string>, bodyToken: Option<string>, now: nat): (h: Handled)
    ensures h.reply.status == Ok200 && h.reply.body == OkBody(true)
    ensures !Truthy(cookie) && !Truthy(bodyToken) ==> h.next == s && h.reply.cookie == KeepCookie
    ensures Truthy(cookie) || Truthy(bodyToken) ==> h.reply.cookie == ClearCookie
    ensures h.next.users == s.users && |h.next.tokens| == |s.tokens|
    ensures forall j :: 0 <= j < |s.tokens| && h.next.tokens[j] != s.tokens[j] ==>
      var token := PresentedSecret(cookie, bodyToken);
      && Truthy(token) && Matches(s.tokens[j], now, token.value)
      && h.next.tokens[j] == s.tokens[j].(revoked := true)
      && forall k :: 0 <= k < j ==> !Matches(s.tokens[k], now, token.value) && h.next.tokens[k] == s.tokens[k]
    ensures var token := PresentedSecret(cookie, bodyToken);
      Truthy(token) ==> forall j :: 0 <= j < |s.tokens| && Matches(s.tokens[j], now, token.value) ==>
        exists k :: 0 <= k <= j && h.next.tokens[k].revoked && !s.tokens[k].revoked
  {
    var token := PresentedSecret(cookie, bodyToken);
    if !Truthy(token) then Handled(Reply(Ok200, OkBody(true), KeepCookie), s)
    else
      var s' := match FirstActiveMatch(s.tokens, now, token.value)
        case None => s
        case Some(i) => Revoke(s, i);
      Handled(Reply(Ok200, OkBody(true), ClearCookie), s')
  }

  // ---------------------------------------------------------------- /me

  /** The profile of the authenticated subject, without the password hash. */
  function GetMe(s: Store, payload: AccessToken): (h: Handled)
    ensures h.next == s
    ensures (forall j :: 0 <= j < |s.users| ==> s.users[j].id != payload.userId) ==>
      h.reply == ErrorReply(NotFoundStatus, NotFound)
    ensures h.reply.status == Ok200 <==> exists j :: 0 <= j < |s.users| && s.users[j].id == payload.userId
    ensures h.reply.status == Ok200 ==>
      exists j :: 0 <= j < |s.users| && s.users[j].id == payload.userId && h.reply.body == ProfileBody(Redact(s.users[j]))
  {
    match FindUserById(s.users, payload.userId)
    case None => Handled(ErrorReply(NotFoundStatus, NotFound), s)
    case Some(k) => Handled(Reply(Ok200, ProfileBody(Redact(s.users[k])), KeepCookie), s)
  }
}
