/**
 * Properties relating the service operations to one another: registration then login,
 * the indistinguishable login failures, the lost login secret, rotation and replay,
 * idempotent logout and the redaction of password hashes.
 */
module ServiceProperties {
  import opened Wrappers
  import opened Hashing
  import opened Messages
  import opened Types
  import opened Db
  import opened AuthService
  import opened Invariants

  // ---------------------------------------------------------------- register

  /** A second registration with an email already registered is refused and writes nothing. */
  lemma RegisterTwiceConflicts(s: Store, first: RegisterBody, second: RegisterBody)
    requires first.email == second.email
    ensures var s1 := Register(s, first).next;
      Register(s1, second) == Step(Err(Failure(Conflict, EmailInUse)), s1)
  {
    var s1 := Register(s, first).next;
    if !EmailTaken(s, first.email) {
      assert s1.users[|s.users|].email == second.email;
    }
  }

  /** A freshly registered user can log in with the password it registered with. */
  lemma RegisterThenLogin(s: Store, body: RegisterBody, cfg: Config, now: nat, x: string)
    requires Wf(s) && !EmailTaken(s, body.email)
    ensures var s1 := Register(s, body).next;
      LoginWithRefresh(s1, cfg, Credentials(body.email, body.password), now, x).result.Ok?
  {
    var s1 := Register(s, body).next;
    RegisterPreserves(s, body);
    var n := |s.users|;
    assert s1.users[n].email == body.email && Verify(s1.users[n].hashedPassword, body.password);
    assert CredentialsValid(s1, Credentials(body.email, body.password));
  }

  /** The registration answer does not depend on the password: no hash can leak through it. */
  lemma RegisterAnswerIgnoresPassword(s: Store, body: RegisterBody, other: string)
    ensures Register(s, body).result == Register(s, body.(password := other)).result
  {
  }

  // ---------------------------------------------------------------- login

  /**
   * An unknown email and a known email with a wrong password produce the same answer and
   * leave the store as it was, so the answer does not reveal which check failed.
   */
  lemma LoginFailuresIndistinguishable(s: Store, cfg: Config, unknown: Credentials, wrong: Credentials,
                                       now: nat, x: string, y: string)
    requires UsersWf(s)
    requires !EmailTaken(s, unknown.email)
    requires exists k :: 0 <= k < |s.users| && s.users[k].email == wrong.email
                         && !Verify(s.users[k].hashedPassword, wrong.password)
    ensures Login(s, cfg, unknown, now, x) == Login(s, cfg, wrong, now, y) == Step(Err(SignInFailure), s)
  {
    var k :| 0 <= k < |s.users| && s.users[k].email == wrong.email && !Verify(s.users[k].hashedPassword, wrong.password);
    assert !CredentialsValid(s, wrong) by {
      forall i | 0 <= i < |s.users| && s.users[i].email == wrong.email
        ensures !Verify(s.users[i].hashedPassword, wrong.password)
      {
        assert i == k;
      }
    }
  }

  /**
   * As written, login's answer is the same whichever secret it issued, while the stores
   * it leaves differ in that secret: the client never learns the secret it would need.
   */
  lemma LoginHidesIssuedSecret(s: Store, cfg: Config, body: Credentials, now: nat, x: string, y: string)
    requires x != y
    ensures Login(s, cfg, body, now, x).result == Login(s, cfg, body, now, y).result
    ensures Login(s, cfg, body, now, x).result.Ok? ==>
      var n := |s.tokens|;
      && Verify(Login(s, cfg, body, now, x).next.tokens[n].tokenHash, x)
      && !Verify(Login(s, cfg, body, now, y).next.tokens[n].tokenHash, x)
  {
    var a, b := LoginWithRefresh(s, cfg, body, now, x), LoginWithRefresh(s, cfg, body, now, y);
    if a.result.Ok? {
      assert b.result.Ok?;
      var n := |s.tokens|;
      assert b.next.tokens[n].tokenHash == Hash(y);
    }
  }

  /** The record a just-issued fresh secret selects is the one just appended. */
  lemma FreshRecordIsFirstMatch(s: Store, s': Store, owner: nat, x: string, exp: nat, later: nat)
    requires Appended(s, s', owner, x, exp) && FreshSecret(s, x) && later < exp
    ensures FirstActiveMatch(s'.tokens, later, x) == Some(|s.tokens|)
  {
    var n := |s.tokens|;
    assert Matches(s'.tokens[n], later, x);
    forall j | 0 <= j < n
      ensures !Matches(s'.tokens[j], later, x)
    {
      assert s'.tokens[j] == s'.tokens[..n][j];
    }
  }

  /**
   * With the secret handed back, login completes the session protocol: presenting that
   * secret before it expires refreshes successfully.
   */
  lemma LoginThenRefresh(s: Store, cfg: Config, body: Credentials, now: nat, x: string, later: nat, y: string)
    requires Wf(s) && FreshSecret(s, x)
    requires LoginWithRefresh(s, cfg, body, now, x).result.Ok?
    requires later < RefreshExpiry(cfg, now)
    ensures var st := LoginWithRefresh(s, cfg, body, now, x);
      Refresh(st.next, cfg, Some(st.result.value.refreshPlain), later, y).result.Ok?
  {
    var st := LoginWithRefresh(s, cfg, body, now, x);
    var owner := st.result.value.accessToken.userId;
    FreshRecordIsFirstMatch(s, st.next, owner, x, RefreshExpiry(cfg, now), later);
    WellFormedSecretNonEmpty(x);
    var n := |s.tokens|;
    assert st.next.tokens[n].userId == owner;
    assert exists k :: 0 <= k < |st.next.users| && st.next.users[k].id == owner;
  }

  // ---------------------------------------------------------------- refresh

  /** In a well-formed store the only record verifying a secret is the one it matched. */
  lemma OnlyMatchVerifies(s: Store, i: nat, j: nat, x: string)
    requires TokensWf(s) && i < |s.tokens| && j < |s.tokens|
    requires Verify(s.tokens[i].tokenHash, x) && Verify(s.tokens[j].tokenHash, x)
    ensures i == j
  {
  }

  /** A secret whose records are all revoked refreshes to `InvalidRefreshToken` and changes nothing. */
  lemma DeadSecretRefused(s: Store, cfg: Config, cookie: Option<string>, now: nat, y: string)
    requires Truthy(cookie) && Dead(s, cookie.value)
    ensures Refresh(s, cfg, cookie, now, y) == Step(Err(Failure(UnauthorizedStatus, InvalidRefreshToken)), s)
    ensures Logout(s, cookie, now).next == s
  {
    DeadSecretLogoutIsNoop(s, cookie, now);
  }

  /** Logging out with a secret whose records are all revoked changes nothing. */
  lemma DeadSecretLogoutIsNoop(s: Store, cookie: Option<string>, now: nat)
    requires Truthy(cookie) && Dead(s, cookie.value)
    ensures Logout(s, cookie, now).next == s
  {
  }

  /**
   * After a refresh that matched (whether or not the owner was found), the presented
   * secret is dead: its record is revoked and the replacement was made from another secret.
   */
  lemma RefreshKillsPresentedSecret(s: Store, cfg: Config, cookie: Option<string>, now: nat, y: string)
    requires TokensWf(s) && FreshSecret(s, y)
    requires Truthy(cookie) && FirstActiveMatch(s.tokens, now, cookie.value).Some?
    ensures var s' := Refresh(s, cfg, cookie, now, y).next;
      Dead(s', cookie.value) && Issued(s', cookie.value)
  {
    var x := cookie.value;
    var i := FirstActiveMatch(s.tokens, now, x).value;
    var s' := Refresh(s, cfg, cookie, now, y).next;
    assert Verify(s'.tokens[i].tokenHash, x);
    assert x != y by { assert !Verify(s.tokens[i].tokenHash, y); }
    forall j | 0 <= j < |s'.tokens| && Verify(s'.tokens[j].tokenHash, x)
      ensures s'.tokens[j].revoked
    {
      if j < |s.tokens| && j != i {
        OnlyMatchVerifies(s, i, j, x);
      }
    }
  }

  /** Rotation is one-shot: presenting the same secret again, at any time, is refused. */
  lemma RefreshReplayRefused(s: Store, cfg: Config, cookie: Option<string>, now: nat, y: string,
                             later: nat, z: string)
    requires TokensWf(s) && FreshSecret(s, y) && Truthy(cookie)
    requires Refresh(s, cfg, cookie, now, y).result.Ok?
    ensures var s' := Refresh(s, cfg, cookie, now, y).next;
      Refresh(s', cfg, cookie, later, z) == Step(Err(Failure(UnauthorizedStatus, InvalidRefreshToken)), s')
  {
    RefreshKillsPresentedSecret(s, cfg, cookie, now, y);
    DeadSecretRefused(Refresh(s, cfg, cookie, now, y).next, cfg, cookie, later, z);
  }

  // ---------------------------------------------------------------- logout

  /** After a logout that matched, the presented secret is dead. */
  lemma LogoutKillsPresentedSecret(s: Store, cookie: Option<string>, now: nat)
    requires TokensWf(s) && Truthy(cookie) && FirstActiveMatch(s.tokens, now, cookie.value).Some?
    ensures Dead(Logout(s, cookie, now).next, cookie.value)
  {
    var x := cookie.value;
    var i := FirstActiveMatch(s.tokens, now, x).value;
    var s' := Logout(s, cookie, now).next;
    forall j | 0 <= j < |s'.tokens| && Verify(s'.tokens[j].tokenHash, x)
      ensures s'.tokens[j].revoked
    {
      if j != i {
        OnlyMatchVerifies(s, i, j, x);
      }
    }
  }

  /** Logging out twice with the same secret leaves the store as logging out once. */
  lemma LogoutIdempotent(s: Store, cookie: Option<string>, now: nat, later: nat)
    requires TokensWf(s) && now <= later
    ensures var s1 := Logout(s, cookie, now).next;
      Logout(s1, cookie, later).next == s1
  {
    var s1 := Logout(s, cookie, now).next;
    if Truthy(cookie) {
      var x := cookie.value;
      match FirstActiveMatch(s.tokens, now, x)
      case None =>
        forall j | 0 <= j < |s1.tokens|
          ensures !Matches(s1.tokens[j], later, x)
        {
          assert !Matches(s.tokens[j], now, x);
        }
      case Some(i) =>
        LogoutKillsPresentedSecret(s, cookie, now);
        DeadSecretLogoutIsNoop(s1, cookie, later);
    }
  }

  // ---------------------------------------------------------------- me

  /**
   * The profile answer is unaffected by the stored password hashes: two stores whose users
   * agree on every public field give the same answer.
   */
  lemma MeIgnoresPasswordHashes(s1: Store, s2: Store, userId: nat)
    requires |s1.users| == |s2.users|
    requires forall i :: 0 <= i < |s1.users| ==> Redact(s1.users[i]) == Redact(s2.users[i])
    ensures Me(s1, userId) == Me(s2, userId)
  {
    forall i | 0 <= i < |s1.users|
      ensures s1.users[i].id == s2.users[i].id
    {
      assert Redact(s1.users[i]).id == Redact(s2.users[i]).id;
    }
    FindUserByIdCongruent(s1.users, s2.users, userId);
  }
}
