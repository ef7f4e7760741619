/**
 * The inline routes against the service: where the two copies agree (every store effect,
 * given the same presented secret) and where they differ (empty credentials, name checks,
 * a missing body, the body fallback, the secret handed back at login).
 */
module RouteAgreement {
  import opened Wrappers
  import opened Messages
  import opened Types
  import opened Db
  import opened AuthService
  import opened AuthValidation
  import opened AuthRoutes
  import opened ServiceProperties

  /** With every field present and non-empty credentials, the route registers as the service does. */
  lemma RouteRegisterAgrees(s: Store, b: RegisterBody)
    requires b.email != "" && b.password != ""
    ensures var h := PostRegister(s, Some(RawRegisterBody(Some(b.firstName), Some(b.lastName), Some(b.email),
                                                          Some(b.password), Some(b.role))));
      var r := Register(s, b);
      && h.next == r.next
      && (h.reply.status == Created201 <==> r.result.Ok?)
      && (r.result.Ok? ==> h.reply.body == RegisteredBody(r.result.value.id, r.result.value.email))
      && (r.result.Err? ==> h.reply == FailureReply(r.result.failure))
  {
  }

  /**
   * Unlike the service, which registers an empty email or password, the route refuses
   * either with 400 before touching the store.
   */
  lemma RouteRefusesEmptyCredentials(s: Store, b: RegisterBody)
    requires (b.email == "" || b.password == "") && !EmailTaken(s, b.email)
    ensures Register(s, b).result.Ok?
    ensures var body := RawRegisterBody(Some(b.firstName), Some(b.lastName), Some(b.email), Some(b.password), Some(b.role));
      PostRegister(s, Some(body)) == Handled(ErrorReply(BadRequest, EmailPasswordRequired), s)
  {
  }

  /** The route's inline check rejects exactly the bodies the login validator rejects. */
  lemma RouteRegisterCheckIsLoginCheck(s: Store, body: RawRegisterBody)
    ensures PostRegister(s, Some(body)).reply == ErrorReply(BadRequest, EmailPasswordRequired)
            <==> ValidateLoginBody(Some(RawLoginBody(body.email, body.password))).Invalid?
  {
    if ValidateLoginBody(Some(RawLoginBody(body.email, body.password))).Valid? {
      assert PostRegister(s, Some(body)).reply.status != BadRequest;
    }
  }

  /** Unlike the validator, the route creates a user whose names and role are absent. */
  lemma RouteSkipsNameChecks(s: Store, email: string, password: string)
    requires email != "" && password != "" && !EmailTaken(s, email)
    ensures var body := RawRegisterBody(None, None, Some(email), Some(password), None);
      && ValidateRegisterBody(Some(body)) == Invalid(Failure(BadRequest, MissingRequiredFields))
      && PostRegister(s, Some(body)).reply.status == Created201
      && PostRegister(s, Some(body)).next.users[|s.users|].role.None?
  {
  }

  /**
   * A missing body: the validator reads it as empty and answers 400, while the route
   * throws while unpacking it and answers 500. Neither writes anything.
   */
  lemma MissingBodyCrashesRoute(s: Store, cfg: Config, now: nat, x: string)
    ensures ValidateRegisterBody(None) == Invalid(Failure(BadRequest, EmailPasswordRequired))
    ensures ValidateLoginBody(None) == Invalid(Failure(BadRequest, EmailPasswordRequired))
    ensures PostRegister(s, None) == Handled(Reply(InternalServerError, ServerErrorBody, KeepCookie), s)
    ensures PostLogin(s, cfg, None, now, x) == Handled(Reply(InternalServerError, ServerErrorBody, KeepCookie), s)
  {
    MissingBodyRejected();
  }

  /**
   * The route logs in as the corrected service login does and puts the secret in the cookie;
   * its literal 'Invalid credentials' reply is the service's sign-in failure.
   */
  lemma RouteLoginAgrees(s: Store, cfg: Config, body: Credentials, now: nat, x: string)
    ensures var h := PostLogin(s, cfg, Some(body), now, x);
      var r := LoginWithRefresh(s, cfg, body, now, x);
      && h.next == r.next
      && (r.result.Err? ==> h.reply == FailureReply(SignInFailure)
                            && h.reply.body == MessageBody("Invalid credentials"))
      && (r.result.Ok? ==> h.reply == Reply(Ok200, TokenBody(r.result.value.accessToken),
                                            SetCookie(r.result.value.refreshPlain, CookieMaxAge(cfg))))
  {
  }

  /** The login reply body is the same whichever secret was issued; only the cookie carries it. */
  lemma RouteLoginSecretOnlyInCookie(s: Store, cfg: Config, body: Credentials, now: nat, x: string, y: string)
    ensures PostLogin(s, cfg, Some(body), now, x).reply.body == PostLogin(s, cfg, Some(body), now, y).reply.body
    ensures PostLogin(s, cfg, Some(body), now, x).reply.status == Ok200 ==>
      PostLogin(s, cfg, Some(body), now, x).reply.cookie.SetCookie? && PostLogin(s, cfg, Some(body), now, x).reply.cookie.secret == x
  {
  }

  /** Given the secret it reads, the route refreshes as the service does. */
  lemma RouteRefreshAgrees(s: Store, cfg: Config, cookie: Option<string>, bodyToken: Option<string>,
                           now: nat, x: string)
    ensures var h := PostRefresh(s, cfg, cookie, bodyToken, now, x);
      var r := Refresh(s, cfg, PresentedSecret(cookie, bodyToken), now, x);
      && h.next == r.next
      && (r.result.Err? ==> h.reply == FailureReply(r.result.failure))
      && (r.result.Ok? ==> h.reply == Reply(Ok200, TokenBody(r.result.value.accessToken),
                                            SetCookie(r.result.value.newRefreshPlain, CookieMaxAge(cfg))))
  {
  }

  /**
   * The body fallback: with no cookie, the route accepts a secret from the body that the
   * service, reading the cookie only, answers with `NoRefreshToken`.
   */
  lemma BodyFallbackOnlyInRoute(s: Store, cfg: Config, bodyToken: Option<string>, now: nat, x: string)
    requires Truthy(bodyToken) && FirstActiveMatch(s.tokens, now, bodyToken.value).Some?
    ensures Refresh(s, cfg, None, now, x).result == Err(Failure(UnauthorizedStatus, NoRefreshToken))
    ensures PostRefresh(s, cfg, None, bodyToken, now, x).reply.body != MessageBody(Message(NoRefreshToken))
    ensures Rotated(s, PostRefresh(s, cfg, None, bodyToken, now, x).next,
                    FirstActiveMatch(s.tokens, now, bodyToken.value).value, x, RefreshExpiry(cfg, now))
  {
    var i := FirstActiveMatch(s.tokens, now, bodyToken.value).value;
    var h := PostRefresh(s, cfg, None, bodyToken, now, x);
    assert h.reply.status == Ok200 || h.reply == ErrorReply(UnauthorizedStatus, UserNotFound);
    MessageInjective(UserNotFound, NoRefreshToken);
  }

  /** Given the secret it reads, the route logs out as the service does. */
  lemma RouteLogoutAgrees(s: Store, cookie: Option<string>, bodyToken: Option<string>, now: nat)
    ensures PostLogout(s, cookie, bodyToken, now).next == Logout(s, PresentedSecret(cookie, bodyToken), now).next
  {
  }

  /** The profile route answers as the service's `me`. */
  lemma RouteMeAgrees(s: Store, payload: AccessToken)
    ensures var h := GetMe(s, payload);
      match Me(s, payload.userId)
      case Ok(p) => h.reply == Reply(Ok200, ProfileBody(p), KeepCookie)
      case Err(f) => h.reply == FailureReply(f)
  {
  }

  /** Through the routes too, a secret that refreshed successfully is refused when presented again. */
  lemma RouteReplayRefused(s: Store, cfg: Config, cookie: Option<string>, bodyToken: Option<string>,
                           now: nat, y: string, later: nat, z: string)
    requires TokensWf(s) && FreshSecret(s, y)
    requires PostRefresh(s, cfg, cookie, bodyToken, now, y).reply.status == Ok200
    ensures var s1 := PostRefresh(s, cfg, cookie, bodyToken, now, y).next;
      PostRefresh(s1, cfg, cookie, bodyToken, later, z) == Handled(ErrorReply(UnauthorizedStatus, InvalidRefreshToken), s1)
  {
    var token := PresentedSecret(cookie, bodyToken);
    RouteRefreshAgrees(s, cfg, cookie, bodyToken, now, y);
    assert Refresh(s, cfg, token, now, y).result.Ok?;
    RefreshReplayRefused(s, cfg, token, now, y, later, z);
    var s1 := PostRefresh(s, cfg, cookie, bodyToken, now, y).next;
    RouteRefreshAgrees(s1, cfg, cookie, bodyToken, later, z);
  }
}
