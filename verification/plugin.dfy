/**
 * The two request guards: `authenticate` verifies the access token, `authorize(roles)`
 * checks the verified user's role. Token verification is abstracted to whether the
 * signature is authentic plus the token's expiry.
 */
module AuthPlugin {
  import opened Wrappers
  import opened Messages
  import opened Types
  import opened Db

  /** A guard lets the request proceed or answers with an error and stops it. */
  datatype Gate = Proceed | Deny(failure: Failure)

  /** Token verification: the payload when the signature is authentic and the token unexpired. */
  function JwtVerify(token: AccessToken, authentic: bool, now: nat): (r: Option<AccessToken>)
    ensures r.Some? <==> authentic && now < token.expiresAt
    ensures r.Some? ==> r.value == token
  {
    if authentic && now < token.expiresAt then Some(token) else None
  }

  /** `authenticate`: 401 on any verification failure, nothing sent on success. */
  function Authenticate(verified: Option<AccessToken>): (g: Gate)
    ensures g.Proceed? <==> verified.Some?
    ensures g.Deny? ==> g.failure == Failure(UnauthorizedStatus, Unauthorized)
  {
    if verified.None? then Deny(Failure(UnauthorizedStatus, Unauthorized)) else Proceed
  }

  /** `roles.includes(user.role)`; an absent role is never included. */
  predicate RoleAllowed(roles: seq<string>, role: Option<string>) {
    role.Some? && role.value in roles
  }

  /** `authorize(roles)`: 401 without a user, else 403 unless the user's role is listed. */
  function Authorize(roles: seq<string>, user: Option<AccessToken>): (g: Gate)
    ensures user.None? ==> g == Deny(Failure(UnauthorizedStatus, Unauthorized))
    ensures user.Some? ==> (g.Proceed? <==> exists k :: 0 <= k < |roles| && user.value.role == Some(roles[k]))
    ensures user.Some? && g.Deny? ==> g.failure == Failure(ForbiddenStatus, Forbidden)
  {
    if user.None? then Deny(Failure(UnauthorizedStatus, Unauthorized))
    else if !RoleAllowed(roles, user.value.role) then Deny(Failure(ForbiddenStatus, Forbidden))
    else Proceed
  }

  /** `authorize` with its default argument, the empty role list. */
  function AuthorizeDefault(user: Option<AccessToken>): (g: Gate)
    ensures user.Some? ==> g == Deny(Failure(ForbiddenStatus, Forbidden))
    ensures user.None? ==> g == Deny(Failure(UnauthorizedStatus, Unauthorized))
  {
    Authorize([], user)
  }

  /** The two guards in sequence; the user `authorize` sees is the payload `authenticate` verified. */
  function Guarded(roles: seq<string>, verified: Option<AccessToken>): Gate {
    match Authenticate(verified)
    case Deny(f) => Deny(f)
    case Proceed => Authorize(roles, verified)
  }

  /** A guarded request proceeds exactly when its token verified and its role is listed. */
  lemma GuardedProceedsIff(roles: seq<string>, verified: Option<AccessToken>)
    ensures Guarded(roles, verified).Proceed? <==> verified.Some? && RoleAllowed(roles, verified.value.role)
    ensures verified.None? ==> Guarded(roles, verified) == Deny(Failure(UnauthorizedStatus, Unauthorized))
  {
  }

  /** The missing-user check comes first: without a user the answer is 401 whatever the roles. */
  lemma UnauthorizedBeforeForbidden(roles: seq<string>, other: seq<string>)
    ensures Authorize(roles, None) == Authorize(other, None)
  {
  }

  /**
   * The access token login signs is accepted by `authenticate` for exactly the access
   * lifetime, provided its signature is authentic.
   */
  lemma SignedTokenAcceptedUntilExpiry(cfg: Config, u: User, now: nat, at: nat)
    requires now <= at
    ensures Authenticate(JwtVerify(SignAccess(cfg, u, now), true, at)).Proceed? <==> at - now < cfg.accessTtl
    ensures Authenticate(JwtVerify(SignAccess(cfg, u, now), false, at)).Deny?
  {
  }
}
