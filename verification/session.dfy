/**
 * Sessions as sequences of requests against one store. The properties proved here hold
 * after any number of interleaved requests from any clients: the store only evolves,
 * stays well formed, and a secret that rotation or logout killed is never accepted again.
 */
module Session {
  import opened Wrappers
  import opened Hashing
  import opened Messages
  import opened Types
  import opened Db
  import opened AuthService
  import opened Invariants
  import opened ServiceProperties

  /** One request to the service, with the time it is handled at and the secret it would issue. */
  datatype Request =
    | RegisterReq(body: RegisterBody)
    | LoginReq(credentials: Credentials, now: nat, secret: string)
    | RefreshReq(cookie: Option<string>, now: nat, secret: string)
    | LogoutReq(cookie: Option<string>, now: nat)
    | MeReq(userId: nat)

  /** The store after one request. */
  function Apply(s: Store, cfg: Config, req: Request): Store {
    match req
    case RegisterReq(body) => Register(s, body).next
    case LoginReq(c, now, x) => LoginWithRefresh(s, cfg, c, now, x).next
    case RefreshReq(cookie, now, x) => Refresh(s, cfg, cookie, now, x).next
    case LogoutReq(cookie, now) => Logout(s, cookie, now).next
    case MeReq(_) => s
  }

  /** The secret a request would issue is a fresh one for the store it is applied to. */
  predicate Admissible(s: Store, req: Request) {
    match req
    case LoginReq(_, _, x) => FreshSecret(s, x)
    case RefreshReq(_, _, x) => FreshSecret(s, x)
    case _ => true
  }

  /** Every request of the sequence is admissible in the store it meets. */
  predicate AdmissibleRun(s: Store, cfg: Config, reqs: seq<Request>)
    decreases |reqs|
  {
    |reqs| == 0 || (Admissible(s, reqs[0]) && AdmissibleRun(Apply(s, cfg, reqs[0]), cfg, reqs[1..]))
  }

  lemma ApplyEvolves(s: Store, cfg: Config, req: Request)
    ensures Evolves(s, Apply(s, cfg, req))
    ensures Wf(s) && Admissible(s, req) ==> Wf(Apply(s, cfg, req))
  {
    match req
    case RegisterReq(body) => RegisterPreserves(s, body);
    case LoginReq(c, now, x) => LoginPreserves(s, cfg, c, now, x);
    case RefreshReq(cookie, now, x) => RefreshPreserves(s, cfg, cookie, now, x);
    case LogoutReq(cookie, now) => LogoutPreserves(s, cookie, now);
    case MeReq(_) => EvolvesReflexive(s);
  }

  /** The store after a sequence of requests; it is always an evolution of the start. */
  function Run(s: Store, cfg: Config, reqs: seq<Request>): (r: Store)
    ensures Evolves(s, r)
    decreases |reqs|
  {
    if |reqs| == 0 then
      EvolvesReflexive(s);
      s
    else
      var s1 := Apply(s, cfg, reqs[0]);
      var r := Run(s1, cfg, reqs[1..]);
      ApplyEvolves(s, cfg, reqs[0]);
      EvolvesTransitive(s, s1, r);
      r
  }

  /** Well-formedness holds after any admissible sequence of requests. */
  lemma {:induction false} RunPreservesWf(s: Store, cfg: Config, reqs: seq<Request>)
    requires Wf(s) && AdmissibleRun(s, cfg, reqs)
    ensures Wf(Run(s, cfg, reqs))
    decreases |reqs|
  {
    if |reqs| > 0 {
      ApplyEvolves(s, cfg, reqs[0]);
      RunPreservesWf(Apply(s, cfg, reqs[0]), cfg, reqs[1..]);
    }
  }

  /** An issued secret, once dead, stays dead and issued across one admissible request. */
  lemma ApplyKeepsDead(s: Store, cfg: Config, req: Request, x: string)
    requires Dead(s, x) && Issued(s, x) && Admissible(s, req)
    ensures Dead(Apply(s, cfg, req), x) && Issued(Apply(s, cfg, req), x)
  {
    var s' := Apply(s, cfg, req);
    ApplyEvolves(s, cfg, req);
    var i :| 0 <= i < |s.tokens| && Verify(s.tokens[i].tokenHash, x);
    assert s'.tokens[i].tokenHash == s.tokens[i].tokenHash;
    match req
    case LoginReq(c, now, y) =>
      assert x != y by { assert !Verify(s.tokens[i].tokenHash, y); }
      EvolvesKeepsDead(s, s', x);
    case RefreshReq(cookie, now, y) =>
      assert x != y by { assert !Verify(s.tokens[i].tokenHash, y); }
      EvolvesKeepsDead(s, s', x);
    case _ =>
      EvolvesKeepsDead(s, s', x);
  }

  /** An issued dead secret stays dead across any admissible sequence of requests. */
  lemma {:induction false} RunKeepsDead(s: Store, cfg: Config, reqs: seq<Request>, x: string)
    requires Dead(s, x) && Issued(s, x) && AdmissibleRun(s, cfg, reqs)
    ensures Dead(Run(s, cfg, reqs), x)
    decreases |reqs|
  {
    if |reqs| > 0 {
      ApplyKeepsDead(s, cfg, reqs[0], x);
      RunKeepsDead(Apply(s, cfg, reqs[0]), cfg, reqs[1..], x);
    }
  }

  /**
   * A rotated secret can never be replayed: after a refresh that matched it, whatever
   * admissible requests follow, presenting it again is refused with `InvalidRefreshToken`.
   */
  lemma RotatedSecretNeverReplays(s: Store, cfg: Config, cookie: Option<string>, now: nat, y: string,
                                  reqs: seq<Request>, later: nat, z: string)
    requires Wf(s) && FreshSecret(s, y) && Truthy(cookie)
    requires FirstActiveMatch(s.tokens, now, cookie.value).Some?
    requires AdmissibleRun(Refresh(s, cfg, cookie, now, y).next, cfg, reqs)
    ensures var t := Run(Refresh(s, cfg, cookie, now, y).next, cfg, reqs);
      Refresh(t, cfg, cookie, later, z) == Step(Err(Failure(UnauthorizedStatus, InvalidRefreshToken)), t)
  {
    var s1 := Refresh(s, cfg, cookie, now, y).next;
    RefreshKillsPresentedSecret(s, cfg, cookie, now, y);
    RunKeepsDead(s1, cfg, reqs, cookie.value);
    DeadSecretRefused(Run(s1, cfg, reqs), cfg, cookie, later, z);
  }

  /** A secret that logout revoked is likewise never accepted again. */
  lemma LoggedOutSecretNeverAccepted(s: Store, cfg: Config, cookie: Option<string>, now: nat,
                                     reqs: seq<Request>, later: nat, z: string)
    requires Wf(s) && Truthy(cookie) && FirstActiveMatch(s.tokens, now, cookie.value).Some?
    requires AdmissibleRun(Logout(s, cookie, now).next, cfg, reqs)
    ensures var t := Run(Logout(s, cookie, now).next, cfg, reqs);
      Refresh(t, cfg, cookie, later, z) == Step(Err(Failure(UnauthorizedStatus, InvalidRefreshToken)), t)
  {
    var s1 := Logout(s, cookie, now).next;
    LogoutKillsPresentedSecret(s, cookie, now);
    var i := FirstActiveMatch(s.tokens, now, cookie.value).value;
    assert Verify(s1.tokens[i].tokenHash, cookie.value);
    RunKeepsDead(s1, cfg, reqs, cookie.value);
    DeadSecretRefused(Run(s1, cfg, reqs), cfg, cookie, later, z);
  }
}
