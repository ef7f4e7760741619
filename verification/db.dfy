/**
 * The persistent state the authentication core reads and writes: users and refresh-token
 * records, with the few store primitives the core uses (lookup, create, revoke) and the
 * invariants that hold of every reachable state.
 */
module Db {
  import opened Wrappers
  import opened Search
  import opened Hashing
  import opened Messages
  import opened Types

  /** A stored user. Name and role fields are kept as given, so they may be absent. */
  datatype User = User(
    id: nat, firstName: Option<string>, lastName: Option<string>, email: string,
    hashedPassword: Digest, role: Option<string>)

  /** A stored refresh credential. Only the hash of its secret is kept. */
  datatype TokenRecord = TokenRecord(id: nat, userId: nat, tokenHash: Digest, expiresAt: nat, revoked: bool)

  /** Both tables, in insertion order, and the next identifier each table hands out. */
  datatype Store = Store(users: seq<User>, tokens: seq<TokenRecord>, nextUserId: nat, nextTokenId: nat)

  /** What one operation yields: its answer and the store after it. */
  datatype Step<+T> = Step(result: Result<T>, next: Store)

  /** Tunables read from the environment: access-token lifetime (ms) and refresh lifetime (days). */
  datatype Config = Config(accessTtl: nat, refreshDays: nat)

  const MinuteMillis: nat := 60 * 1000
  const DayMillis: nat := 24 * 60 * MinuteMillis

  /** The defaults used when the environment sets nothing: 15 minutes and 30 days. */
  const DefaultConfig := Config(15 * MinuteMillis, 30)

  /** Expiry of a refresh record created at `now`. */
  function RefreshExpiry(cfg: Config, now: nat): (t: nat)
    ensures t >= now && t - now == cfg.refreshDays * DayMillis
    ensures t > now <==> cfg.refreshDays > 0
  {
    now + cfg.refreshDays * DayMillis
  }

  /** The access token signed for a user at `now`. */
  function SignAccess(cfg: Config, u: User, now: nat): (a: AccessToken)
    ensures a.userId == u.id && a.role == u.role
    ensures a.expiresAt > now <==> cfg.accessTtl > 0
  {
    AccessToken(u.id, u.role, now + cfg.accessTtl)
  }

  /** The public view of a user: every field except the password hash. */
  function Redact(u: User): (p: PublicUser)
    ensures p.id == u.id && p.email == u.email && p.role == u.role
    ensures p.firstName == u.firstName && p.lastName == u.lastName
  {
    PublicUser(u.id, u.firstName, u.lastName, u.email, u.role)
  }

  /** The profile does not depend on the stored password hash. */
  lemma RedactIgnoresHash(u: User, d: Digest)
    ensures Redact(u.(hashedPassword := d)) == Redact(u)
  {
  }

  // ---------------------------------------------------------------- lookups

  function FindUserByEmail(users: seq<User>, email: string): (r: Option<nat>)
    ensures r.Some? ==> r.value < |users| && users[r.value].email == email
    ensures r.Some? ==> forall j :: 0 <= j < r.value ==> users[j].email != email
    ensures r.None? <==> forall j :: 0 <= j < |users| ==> users[j].email != email
  {
    FirstWhere(users, (u: User) => u.email == email)
  }

  function FindUserById(users: seq<User>, id: nat): (r: Option<nat>)
    ensures r.Some? ==> r.value < |users| && users[r.value].id == id
    ensures r.Some? ==> forall j :: 0 <= j < r.value ==> users[j].id != id
    ensures r.None? <==> forall j :: 0 <= j < |users| ==> users[j].id != id
  {
    FirstWhere(users, (u: User) => u.id == id)
  }

  /** Lookup by id depends on the ids alone. */
  lemma FindUserByIdCongruent(xs: seq<User>, ys: seq<User>, id: nat)
    requires |xs| == |ys| && forall i :: 0 <= i < |xs| ==> xs[i].id == ys[i].id
    ensures FindUserById(xs, id) == FindUserById(ys, id)
  {
    var a, b := FindUserById(xs, id), FindUserById(ys, id);
    if a.Some? && b.Some? {
      assert xs[b.value].id == id && ys[a.value].id == id;
    }
  }

  predicate EmailTaken(s: Store, email: string) {
    exists j :: 0 <= j < |s.users| && s.users[j].email == email
  }

  /** A record that may still be exchanged: not revoked and not yet expired. */
  predicate Active(t: TokenRecord, now: nat) {
    !t.revoked && t.expiresAt > now
  }

  /** A candidate record whose hash verifies the presented secret. */
  predicate Matches(t: TokenRecord, now: nat, secret: string) {
    Active(t, now) && Verify(t.tokenHash, secret)
  }

  /** The record a presented secret selects: the first active record whose hash verifies it. */
  function FirstActiveMatch(tokens: seq<TokenRecord>, now: nat, secret: string): (r: Option<nat>)
    ensures r.Some? ==> r.value < |tokens| && Matches(tokens[r.value], now, secret)
    ensures r.Some? ==> forall j :: 0 <= j < r.value ==> !Matches(tokens[j], now, secret)
    ensures r.None? <==> forall j :: 0 <= j < |tokens| ==> !Matches(tokens[j], now, secret)
  {
    FirstWhere(tokens, (t: TokenRecord) => Matches(t, now, secret))
  }

  /** The candidate scan as a loop that stops at the first verifying record. */
  method ScanActive(tokens: seq<TokenRecord>, now: nat, secret: string) returns (found: Option<nat>)
    ensures found == FirstActiveMatch(tokens, now, secret)
  {
    var k := 0;
    while k < |tokens|
      invariant k <= |tokens|
      invariant forall j :: 0 <= j < k ==> !Matches(tokens[j], now, secret)
    {
      if Matches(tokens[k], now, secret) {
        found := Some(k);
        ghost var r := FirstActiveMatch(tokens, now, secret);
        assert r.Some? && !(r.value < k) && !(k < r.value);
        return;
      }
      k := k + 1;
    }
    found := None;
  }

  // ---------------------------------------------------------------- writes

  /** Creates a user with the next user id. */
  function CreateUser(s: Store, firstName: Option<string>, lastName: Option<string>, email: string,
                      password: string, role: Option<string>): (r: Store)
    ensures r.tokens == s.tokens && r.nextTokenId == s.nextTokenId
    ensures r.nextUserId == s.nextUserId + 1
    ensures |r.users| == |s.users| + 1 && r.users[..|s.users|] == s.users
    ensures var u := r.users[|s.users|];
      u.id == s.nextUserId && u.email == email && u.role == role
      && u.firstName == firstName && u.lastName == lastName
      && Verify(u.hashedPassword, password)
      && forall p :: Verify(u.hashedPassword, p) ==> p == password
  {
    var u := User(s.nextUserId, firstName, lastName, email, Hash(password), role);
    s.(users := s.users + [u], nextUserId := s.nextUserId + 1)
  }

  /** Sets the revoked flag of record `i`; nothing else changes. */
  function Revoke(s: Store, i: nat): (r: Store)
    requires i < |s.tokens|
    ensures r.users == s.users && r.nextUserId == s.nextUserId && r.nextTokenId == s.nextTokenId
    ensures |r.tokens| == |s.tokens| && r.tokens[i] == s.tokens[i].(revoked := true)
    ensures forall j :: 0 <= j < |s.tokens| && j != i ==> r.tokens[j] == s.tokens[j]
  {
    s.(tokens := s.tokens[i := s.tokens[i].(revoked := true)])
  }

  /** Persists a new unrevoked record holding only the hash of `secret`. */
  function Issue(s: Store, userId: nat, secret: string, expiresAt: nat): (r: Store)
    ensures r.users == s.users && r.nextUserId == s.nextUserId
    ensures r.nextTokenId == s.nextTokenId + 1
    ensures |r.tokens| == |s.tokens| + 1 && r.tokens[..|s.tokens|] == s.tokens
    ensures var t := r.tokens[|s.tokens|];
      t.id == s.nextTokenId && t.userId == userId && t.expiresAt == expiresAt && !t.revoked
      && Verify(t.tokenHash, secret) && forall x :: Verify(t.tokenHash, x) ==> x == secret
  {
    var t := TokenRecord(s.nextTokenId, userId, Hash(secret), expiresAt, false);
    s.(tokens := s.tokens + [t], nextTokenId := s.nextTokenId + 1)
  }

  // ---------------------------------------------------------------- invariants

  /** User ids are below the counter and distinct; emails are distinct. */
  predicate UsersWf(s: Store) {
    && (forall i :: 0 <= i < |s.users| ==> s.users[i].id < s.nextUserId)
    && (forall i, j :: 0 <= i < j < |s.users| ==>
          s.users[i].id != s.users[j].id && s.users[i].email != s.users[j].email)
  }

  /** Record ids are below the counter and distinct; no two records share a secret. */
  predicate TokensWf(s: Store) {
    && (forall i :: 0 <= i < |s.tokens| ==> s.tokens[i].id < s.nextTokenId)
    && (forall i, j :: 0 <= i < j < |s.tokens| ==>
          s.tokens[i].id != s.tokens[j].id && !SameSecret(s.tokens[i].tokenHash, s.tokens[j].tokenHash))
  }

  predicate Wf(s: Store) {
    UsersWf(s) && TokensWf(s)
  }

  /** Some record was created from secret `x`. */
  predicate Issued(s: Store, x: string) {
    exists i :: 0 <= i < |s.tokens| && Verify(s.tokens[i].tokenHash, x)
  }

  /**
   * A secret as the random generator produces it: well formed and never issued before.
   * This stands in for the unguessability of 64 random bytes.
   */
  predicate FreshSecret(s: Store, x: string) {
    WellFormedSecret(x) && forall i :: 0 <= i < |s.tokens| ==> !Verify(s.tokens[i].tokenHash, x)
  }

  /** Every record created from `x` is revoked: the secret can no longer be exchanged. */
  predicate Dead(s: Store, x: string) {
    forall i :: 0 <= i < |s.tokens| && Verify(s.tokens[i].tokenHash, x) ==> s.tokens[i].revoked
  }

  /**
   * How the store may change across any operation of the core: users and records are only
   * appended, counters only grow, and an existing record changes at most by becoming revoked.
   */
  predicate Evolves(s: Store, s': Store) {
    && |s.users| <= |s'.users| && s'.users[..|s.users|] == s.users
    && |s.tokens| <= |s'.tokens|
    && (forall i :: 0 <= i < |s.tokens| ==>
          s'.tokens[i] == s.tokens[i] || s'.tokens[i] == s.tokens[i].(revoked := true))
    && s.nextUserId <= s'.nextUserId && s.nextTokenId <= s'.nextTokenId
  }

  /** Once revoked, a record stays revoked along any evolution. */
  lemma EvolvesKeepsRevoked(s: Store, s': Store, i: nat)
    requires Evolves(s, s') && i < |s.tokens| && s.tokens[i].revoked
    ensures s'.tokens[i].revoked && s'.tokens[i] == s.tokens[i]
  {
  }

  lemma EvolvesTransitive(s1: Store, s2: Store, s3: Store)
    requires Evolves(s1, s2) && Evolves(s2, s3)
    ensures Evolves(s1, s3)
  {
    assert s3.users[..|s1.users|] == s3.users[..|s2.users|][..|s1.users|];
    forall i | 0 <= i < |s1.tokens|
      ensures s3.tokens[i] == s1.tokens[i] || s3.tokens[i] == s1.tokens[i].(revoked := true)
    {
      assert s2.tokens[i] == s1.tokens[i] || s2.tokens[i] == s1.tokens[i].(revoked := true);
    }
  }
}
