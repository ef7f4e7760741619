/**
 * What every service operation preserves: the well-formedness of the store, the
 * monotone evolution of its records (revoked only moves from false to true), and the
 * deadness of a secret whose records are all revoked.
 */
module Invariants {
  import opened Wrappers
  import opened Hashing
  import opened Types
  import opened Db
  import opened AuthService

  /** A store evolves into itself. */
  lemma EvolvesReflexive(s: Store)
    ensures Evolves(s, s)
  {
    assert s.users[..|s.users|] == s.users;
  }

  /** Appending one record is an evolution, and it keeps well-formedness when the secret is fresh. */
  lemma AppendedEvolves(s: Store, s': Store, owner: nat, x: string, exp: nat)
    requires Appended(s, s', owner, x, exp) && s'.nextUserId == s.nextUserId && s'.nextTokenId == s.nextTokenId + 1
    ensures Evolves(s, s')
    ensures Wf(s) && FreshSecret(s, x) ==> Wf(s')
  {
    assert s'.users[..|s.users|] == s.users;
    forall i | 0 <= i < |s.tokens|
      ensures s'.tokens[i] == s.tokens[i]
    {
      assert s'.tokens[i] == s'.tokens[..|s.tokens|][i];
    }
  }

  /** Rotating a record is an evolution, and it keeps well-formedness when the new secret is fresh. */
  lemma RotatedEvolves(s: Store, s': Store, i: nat, x: string, exp: nat)
    requires Rotated(s, s', i, x, exp) && s'.nextUserId == s.nextUserId && s'.nextTokenId == s.nextTokenId + 1
    ensures Evolves(s, s')
    ensures Wf(s) && FreshSecret(s, x) ==> Wf(s')
  {
    assert s'.users[..|s.users|] == s.users;
    if Wf(s) && FreshSecret(s, x) {
      forall a, b | 0 <= a < b < |s'.tokens|
        ensures s'.tokens[a].id != s'.tokens[b].id && !SameSecret(s'.tokens[a].tokenHash, s'.tokens[b].tokenHash)
      {
        assert s'.tokens[a].id == s.tokens[a].id && s'.tokens[a].tokenHash == s.tokens[a].tokenHash;
        if b < |s.tokens| {
          assert s'.tokens[b].id == s.tokens[b].id && s'.tokens[b].tokenHash == s.tokens[b].tokenHash;
        } else {
          assert !Verify(s.tokens[a].tokenHash, x);
        }
      }
    }
  }

  lemma RegisterPreserves(s: Store, body: RegisterBody)
    ensures Evolves(s, Register(s, body).next)
    ensures Wf(s) ==> Wf(Register(s, body).next)
  {
    var s' := Register(s, body).next;
    if EmailTaken(s, body.email) {
      EvolvesReflexive(s);
    } else {
      if Wf(s) {
        forall i, j | 0 <= i < j < |s'.users|
          ensures s'.users[i].id != s'.users[j].id && s'.users[i].email != s'.users[j].email
        {
          assert s'.users[i] == s.users[i] by { assert s'.users[i] == s'.users[..|s.users|][i]; }
          if j < |s.users| {
            assert s'.users[j] == s.users[j] by { assert s'.users[j] == s'.users[..|s.users|][j]; }
          }
        }
        forall i | 0 <= i < |s'.users|
          ensures s'.users[i].id < s'.nextUserId
        {
          if i < |s.users| {
            assert s'.users[i] == s'.users[..|s.users|][i];
          }
        }
      }
    }
  }

  lemma LoginPreserves(s: Store, cfg: Config, body: Credentials, now: nat, x: string)
    ensures Evolves(s, LoginWithRefresh(s, cfg, body, now, x).next)
    ensures Wf(s) && FreshSecret(s, x) ==> Wf(LoginWithRefresh(s, cfg, body, now, x).next)
    ensures Login(s, cfg, body, now, x).next == LoginWithRefresh(s, cfg, body, now, x).next
  {
    var r := LoginWithRefresh(s, cfg, body, now, x);
    if r.result.Err? {
      EvolvesReflexive(s);
    } else {
      AppendedEvolves(s, r.next, r.result.value.accessToken.userId, x, RefreshExpiry(cfg, now));
    }
  }

  lemma RefreshPreserves(s: Store, cfg: Config, cookie: Option<string>, now: nat, x: string)
    ensures Evolves(s, Refresh(s, cfg, cookie, now, x).next)
    ensures Wf(s) && FreshSecret(s, x) ==> Wf(Refresh(s, cfg, cookie, now, x).next)
  {
    var r := Refresh(s, cfg, cookie, now, x);
    if !Truthy(cookie) || FirstActiveMatch(s.tokens, now, cookie.value).None? {
      EvolvesReflexive(s);
    } else {
      var i := FirstActiveMatch(s.tokens, now, cookie.value).value;
      RotatedEvolves(s, r.next, i, x, RefreshExpiry(cfg, now));
    }
  }

  lemma LogoutPreserves(s: Store, cookie: Option<string>, now: nat)
    ensures Evolves(s, Logout(s, cookie, now).next)
    ensures Wf(s) ==> Wf(Logout(s, cookie, now).next)
  {
    var s' := Logout(s, cookie, now).next;
    assert s'.users[..|s.users|] == s.users;
    forall i | 0 <= i < |s.tokens|
      ensures s'.tokens[i] == s.tokens[i] || s'.tokens[i] == s.tokens[i].(revoked := true)
    {
    }
  }

  /**
   * A dead secret stays dead along an evolution that creates no record from it.
   */
  lemma EvolvesKeepsDead(s: Store, s': Store, x: string)
    requires Evolves(s, s') && Dead(s, x)
    requires forall i :: |s.tokens| <= i < |s'.tokens| ==> !Verify(s'.tokens[i].tokenHash, x)
    ensures Dead(s', x)
  {
    forall i | 0 <= i < |s'.tokens| && Verify(s'.tokens[i].tokenHash, x)
      ensures s'.tokens[i].revoked
    {
      if i < |s.tokens| {
        assert s'.tokens[i] == s.tokens[i] || s'.tokens[i] == s.tokens[i].(revoked := true);
      }
    }
  }
}
