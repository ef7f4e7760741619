# Refresh-token session authority — a Dafny model

This project models the authentication core of a Fastify/Prisma book-review backend: the
`AuthService` state machine (register, login, refresh-token rotation, logout, profile), the
older inline copy of the same logic in the `/auth` route handlers, the two request-body
validators, and the `authenticate`/`authorize` guards.

The store is immutable. A `Db.Store` holds the users and the refresh-token records
`{id, userId, tokenHash, expiresAt, revoked}` in insertion order, plus the next id of each
table. Every operation is a pure function. It returns a tagged answer (`Ok`, or `Err` with
an HTTP status and an error kind) together with the next store. The routes return a reply
`{status, body, cookie action}` instead.

Abstractions:
- Time is an integer `now` in milliseconds. A refresh record expires at
  `now + days * 86 400 000`, and an access token at `now + accessTtl`.
- A stored hash is modelled by the secret it was computed from (`Hashing.Digest`).
  `Verify(hash, s)` holds exactly when the hash was made from `s`. A malformed stored hash
  verifies nothing, which is how the source's try/catch around argon2 behaves.
- The random refresh secret is a parameter. The invariant lemmas assume it is `FreshSecret`:
  128 hex digits, and no existing record verifies it.
- An access token is its claims `(userId, role, expiresAt)`. Its signature is a boolean
  passed to `JwtVerify`.

Module layout:

| file | module | models |
|---|---|---|
| `wrappers.dfy` | `Wrappers` | `Option`, JavaScript truthiness, `a \|\| b` |
| `search.dfy` | `Search` | first-match linear search |
| `messages.dfy` | `Messages` | error kinds, message texts, HTTP statuses |
| `hashing.dfy` | `Hashing` | hash/verify abstraction, secret format |
| `types.dfy` | `Types` | roles, request and response bodies |
| `db.dfy` | `Db` | users, token records, store primitives, well-formedness, evolution |
| `service.dfy` | `AuthService` | the service operations |
| `invariants.dfy` | `Invariants` | what each operation preserves |
| `properties.dfy` | `ServiceProperties` | properties relating the operations |
| `session.dfy` | `Session` | arbitrary request sequences; a dead secret stays dead |
| `validation.dfy` | `AuthValidation` | register/login body validators |
| `plugin.dfy` | `AuthPlugin` | `authenticate`, `authorize` |
| `routes.dfy` | `AuthRoutes` | the inline route handlers |
| `route_agreement.dfy` | `RouteAgreement` | where routes and service agree, and where they differ: empty credentials, skipped name checks, a missing body, the body fallback for the refresh secret, the login secret in a cookie |

The model follows the code in these respects:
- Rotation writes `replacedBy: null`, so no successor link is modelled.
- Revoke and create are two separate writes, neither atomic nor conditional.
- The service's `login` does not return the refresh secret (see Findings).
- `src/app.ts:30` registers only `rootRoutes`. As the code stands, neither the auth routes
  nor the controller are reachable. They are modelled anyway.

## Model

| member | source | states |
|---|---|---|
| `Wrappers.OrElse` | src/routes/auth.ts:73 | `cookie \|\| body.refreshToken` is truthy iff either is; it yields the cookie when the cookie is truthy, and the body value otherwise |
| `Messages.MessageInjective` | src/constants/messages.ts:1-13 | different error kinds have different message texts; SIGNIN_FAILED is the same kind as INVALID_CREDENTIALS |
| `Hashing.Hash` | src/utils/auth.ts:8-31 | a hash verifies the secret it was made from and no other secret |
| `Hashing.MalformedNeverVerifies` | src/utils/auth.ts:13-19 | a stored hash that cannot be parsed verifies no candidate: verification answers false instead of throwing |
| `Db.SignAccess` | src/services/authService.ts:54 | the access token names the user's id and role, and it is still unexpired at signing time iff the TTL is positive |
| `Db.RefreshExpiry` | src/services/authService.ts:59-60 | a refresh record expires exactly the configured number of days (at 86 400 000 ms each) after `now`, so strictly later iff that number is positive |
| `Db.Redact` | src/services/authService.ts:126 | the profile keeps the user's id, names, email and role |
| `Db.RedactIgnoresHash` | src/services/authService.ts:126 | the profile is the same whatever password hash is stored |
| `Db.FindUserById` | src/services/authService.ts:97 | finds the first user with that id; finds none iff no user has it |
| `Db.FindUserByEmail` | src/services/authService.ts:32 | finds the first user with that email; finds none iff no user has it |
| `Db.FirstActiveMatch` | src/services/authService.ts:76-84 | selects the first record that is unrevoked, unexpired and verifies the secret; selects none iff no such record exists |
| `Db.ScanActive` | src/services/authService.ts:80-83 | the loop that breaks at the first verifying candidate finds the same record as `FirstActiveMatch` |
| `Db.Revoke` | src/services/authService.ts:86 | sets the revoked flag of one record; every other record and every user is unchanged |
| `Db.Issue` | src/services/authService.ts:93-95 | appends one unrevoked record with a fresh id for the owner; its hash verifies only the new secret |
| `Db.CreateUser` | src/services/authService.ts:35-39 | appends one user with a fresh id whose stored hash verifies only the given password |
| `Db.EvolvesKeepsRevoked` | src/services/authService.ts:86 | along any evolution of the store, a revoked record stays revoked and unchanged |
| `AuthService.Register` | src/services/authService.ts:27-42 | a taken email gives 409 EMAIL_IN_USE with the store unchanged; otherwise exactly one user is appended with the hashed password, and the answer is exactly `{id, email}` |
| `AuthService.LoginWithRefresh` | src/services/authService.ts:44-67 | corrected login: any failure is the same 400 SIGNIN_FAILED with the store unchanged; under unique emails it succeeds iff the credentials are valid; on success it appends one unrevoked record for the user, expiring at `now + days`, and returns the secret |
| `AuthService.Login` | src/services/authService.ts:44-67 | login as written: the same failure and store behaviour; the access token carries the id and role of the user holding the email, whose hash verifies the password, and expires one access TTL after `now`; but the answer holds only the access token |
| `AuthService.Refresh` | src/services/authService.ts:69-105 | absent secret gives 401 NO_REFRESH_TOKEN and no active match gives 401 INVALID_REFRESH_TOKEN, both with the store unchanged; otherwise the first match is revoked, one record is appended for the same owner and nothing else changes; success iff the owner exists, else 401 USER_NOT_FOUND after the rotation; on success the access token carries the owner's id and current role and expires one access TTL after `now` |
| `AuthService.Logout` | src/services/authService.ts:107-121 | always `{ok: true}`; an absent secret changes nothing; the only record that may change is the first active match, and it becomes revoked |
| `AuthService.Me` | src/services/authService.ts:123-128 | 404 NOT_FOUND iff no user has the id; otherwise the redacted profile of a user with that id |
| `Invariants.RegisterPreserves` | src/services/authService.ts:32-39 | register keeps ids and emails unique and only appends |
| `Invariants.LoginPreserves` | src/services/authService.ts:56-64 | login only appends, and with a fresh secret it keeps record ids and secrets unique |
| `Invariants.RefreshPreserves` | src/services/authService.ts:86-95 | refresh only revokes and appends, and with a fresh secret it keeps the store well formed |
| `Invariants.LogoutPreserves` | src/services/authService.ts:110-120 | logout at most revokes, and it keeps the store well formed |
| `Invariants.EvolvesKeepsDead` | src/services/authService.ts:86-95 | a secret whose records are all revoked stays so, unless a new record is made from it |
| `ServiceProperties.RegisterTwiceConflicts` | src/services/authService.ts:32-33 | registering an email a second time is refused with EMAIL_IN_USE and writes nothing |
| `ServiceProperties.RegisterThenLogin` | src/services/authService.ts:35-52 | a newly registered user can log in with its password |
| `ServiceProperties.RegisterAnswerIgnoresPassword` | src/services/authService.ts:41 | the register answer does not depend on the password, so no hash can leak through it |
| `ServiceProperties.LoginFailuresIndistinguishable` | src/services/authService.ts:48-52 | an unknown email and a wrong password give identical answers and identical stores |
| `ServiceProperties.LoginHidesIssuedSecret` | src/services/authService.ts:56-66 | as written, login's answer is the same whichever secret it stored, so the caller never learns the secret |
| `ServiceProperties.FreshRecordIsFirstMatch` | src/services/authService.ts:76-83 | a freshly issued secret selects the record just appended |
| `ServiceProperties.LoginThenRefresh` | src/services/authService.ts:56-104 | with the corrected login, presenting the returned secret before it expires refreshes successfully |
| `ServiceProperties.DeadSecretRefused` | src/services/authService.ts:76-84 | a secret whose records are all revoked gets INVALID_REFRESH_TOKEN from refresh, and logout with it changes nothing |
| `ServiceProperties.DeadSecretLogoutIsNoop` | src/services/authService.ts:107-121 | logging out with a secret whose records are all revoked changes nothing |
| `ServiceProperties.RefreshKillsPresentedSecret` | src/services/authService.ts:86-95 | after a matching refresh (success or USER_NOT_FOUND), every record of the presented secret is revoked |
| `ServiceProperties.RefreshReplayRefused` | src/services/authService.ts:76-104 | presenting a rotated secret again, at any time, is refused with INVALID_REFRESH_TOKEN |
| `ServiceProperties.LogoutKillsPresentedSecret` | src/services/authService.ts:113-119 | after a matching logout, every record of the presented secret is revoked |
| `ServiceProperties.LogoutIdempotent` | src/services/authService.ts:110-121 | logging out twice with the same secret, the second time no earlier, gives the store of logging out once |
| `ServiceProperties.MeIgnoresPasswordHashes` | src/services/authService.ts:123-128 | the profile answer is the same for any stored password hashes |
| `Session.ApplyEvolves` | src/services/authService.ts:27-128 | every request only appends and revokes; an admissible request keeps the store well formed |
| `Session.Run` | src/services/authService.ts:27-128 | any sequence of requests is an evolution of the start store: revoked only goes from false to true |
| `Session.RunPreservesWf` | src/services/authService.ts:27-128 | unique ids, emails and secrets hold after any admissible request sequence |
| `Session.ApplyKeepsDead` | src/services/authService.ts:27-128 | an issued dead secret stays dead and issued across one admissible request |
| `Session.RunKeepsDead` | src/services/authService.ts:27-128 | an issued dead secret stays dead across any admissible request sequence |
| `Session.RotatedSecretNeverReplays` | src/services/authService.ts:69-105 | once a secret has been rotated, after any later admissible requests, refresh with it is refused |
| `Session.LoggedOutSecretNeverAccepted` | src/services/authService.ts:107-121 | once logout has revoked a secret, after any later admissible requests, refresh with it is refused |
| `AuthValidation.RegisterFields` | src/validation/authValidation.ts:9 | a missing body reads as a body with every field absent |
| `AuthValidation.LoginFields` | src/validation/authValidation.ts:22 | `request.body \|\| {}`: a missing body reads as one with email and password absent; a present body is read as is |
| `AuthValidation.ValidateRegisterBody` | src/validation/authValidation.ts:5-16 | valid iff all five fields are non-empty; EMAIL_PASSWORD_REQUIRED iff email or password is falsy; MISSING_REQUIRED_FIELDS iff those are present and a name or the role is falsy |
| `AuthValidation.ValidateLoginBody` | src/validation/authValidation.ts:18-26 | valid iff email and password are non-empty; otherwise EMAIL_PASSWORD_REQUIRED |
| `AuthValidation.MissingBodyRejected` | src/validation/authValidation.ts:9-11 | a missing body is rejected by both validators with EMAIL_PASSWORD_REQUIRED |
| `AuthValidation.CredentialErrorTakesPrecedence` | src/validation/authValidation.ts:10-14 | when both field groups are missing, EMAIL_PASSWORD_REQUIRED is reported |
| `AuthValidation.RegisterValidImpliesLoginValid` | src/validation/authValidation.ts:10-25 | a body valid for register carries credentials valid for login |
| `AuthValidation.AnyRoleAccepted` | src/validation/authValidation.ts:13-15 | any non-empty role string passes, including `admin` |
| `AuthPlugin.JwtVerify` | src/plugins/auth.ts:15 | verification yields the payload iff the signature is authentic and the token is unexpired |
| `AuthPlugin.Authenticate` | src/plugins/auth.ts:13-19 | proceeds iff verification succeeded; otherwise 401 Unauthorized |
| `AuthPlugin.Authorize` | src/plugins/auth.ts:22-31 | no user gives 401; otherwise it proceeds iff the user's role is in `roles`, else 403 Forbidden |
| `AuthPlugin.AuthorizeDefault` | src/plugins/auth.ts:22-28 | with the default empty role list, every user is forbidden and a missing user is unauthorized |
| `AuthPlugin.GuardedProceedsIff` | src/plugins/auth.ts:13-31 | authenticate then authorize proceeds iff the token verified and its role is listed |
| `AuthPlugin.UnauthorizedBeforeForbidden` | src/plugins/auth.ts:25-28 | without a user the answer is 401 whatever the role list |
| `AuthPlugin.SignedTokenAcceptedUntilExpiry` | src/plugins/auth.ts:13-18 | a signed access token passes authenticate exactly while younger than the access TTL, and never with a bad signature |
| `AuthRoutes.CookieMaxAge` | src/routes/auth.ts:65 | the cookie lifetime in seconds equals the record lifetime |
| `AuthRoutes.PostRegister` | src/routes/auth.ts:12-28 | a missing body makes the handler throw, so the error handler answers 500 with the store unchanged; falsy email or password gives 400 and a taken email gives 409, both before any write; otherwise 201 `{id, email}` and exactly one user with the hashed password |
| `AuthRoutes.PostLogin` | src/routes/auth.ts:31-68 | a missing body gives 500 with the store unchanged; both failures give the same 400 'Invalid credentials' with the store unchanged; success iff the credentials are valid; on success the body holds only the access token (the user's id and role, expiring one access TTL after `now`), the cookie carries the secret, and one record is appended |
| `AuthRoutes.PresentedSecret` | src/routes/auth.ts:73 | the secret read is the cookie when it is truthy, else `body.refreshToken`; one is read iff either is truthy |
| `AuthRoutes.PostRefresh` | src/routes/auth.ts:71-125 | the secret is the cookie, else `body.refreshToken`; none gives 401; no active match gives 401 with the store unchanged; otherwise rotation happens, then 200 with a new cookie iff the owner exists, else 401 'User not found'; the new access token carries the owner's id and current role |
| `AuthRoutes.PostLogout` | src/routes/auth.ts:128-147 | always 200 `{ok: true}`; the cookie is cleared only when a secret was presented; a changed record is an active match of the presented secret with no active match before it, and the first active match, if any, is revoked |
| `AuthRoutes.GetMe` | src/routes/auth.ts:150-157 | 200 iff some user has the id, with that user's profile without the hash; 404 otherwise; the store is unchanged |
| `RouteAgreement.RouteRegisterAgrees` | src/routes/auth.ts:12-28 | with all fields present and a non-empty email and password, the route's register has the same store effect and answer as the service's |
| `RouteAgreement.RouteRefusesEmptyCredentials` | src/routes/auth.ts:16 | an empty email or password under a free email: the service registers the user, while the route answers 400 'email and password required' with the store unchanged |
| `RouteAgreement.RouteRegisterCheckIsLoginCheck` | src/routes/auth.ts:16 | the route's inline check rejects exactly the bodies the login validator rejects |
| `RouteAgreement.MissingBodyCrashesRoute` | src/routes/auth.ts:13 | a missing body is read as empty by the validators (400 EMAIL_PASSWORD_REQUIRED) but makes the register and login routes throw, answered with 500 by the error handler of `src/app.ts` |
| `RouteAgreement.RouteSkipsNameChecks` | src/routes/auth.ts:13-25 | the route stores a user whose names and role are absent, although the validator refuses that body |
| `RouteAgreement.RouteLoginAgrees` | src/routes/auth.ts:31-68 | the route's login has the store effect of the corrected service login and puts its secret in the cookie; its literal 'Invalid credentials' reply is the service's SIGNIN_FAILED error |
| `RouteAgreement.RouteLoginSecretOnlyInCookie` | src/routes/auth.ts:58-67 | the login reply body is the same whichever secret was issued; only the cookie carries the secret |
| `RouteAgreement.RouteRefreshAgrees` | src/routes/auth.ts:71-125 | given the secret it reads, the route's refresh has the service's store effect and answer |
| `RouteAgreement.BodyFallbackOnlyInRoute` | src/routes/auth.ts:73-74 | with no cookie, a body secret that has an active match is accepted by the route, which rotates that record, while the service refuses it with NO_REFRESH_TOKEN |
| `RouteAgreement.RouteLogoutAgrees` | src/routes/auth.ts:128-147 | given the secret it reads, the route's logout has the service's store effect |
| `RouteAgreement.RouteMeAgrees` | src/routes/auth.ts:150-157 | the profile route answers as the service's `me` |
| `RouteAgreement.RouteReplayRefused` | src/routes/auth.ts:78-111 | through the routes too, a secret that refreshed successfully is refused when presented again |

## Left out

- argon2 and the CSPRNG (src/utils/auth.ts): hashing is the `Digest` abstraction, and
  randomness is the `FreshSecret` hypothesis. Per-call salts, cost parameters and
  hashing-resource failures are not modelled.
- The text of a thrown error, which the error handler of `src/app.ts` puts in its 500 reply, is runtime-specific and not modelled.
- JWT signing (`fastify.jwt`): the access token is its claims, and signature checking is a boolean.
- Prisma and Fastify plumbing is not modelled: store errors, connection lifecycle,
  cookie options other than the value and max-age, and the process wiring in
  `src/app.ts`, `src/server.ts`, `src/plugins/plugin.ts` and `src/routes/root.ts`.
- `src/controllers/authController.ts` only forwards to the service and sets or clears
  cookies. It is not part of this model.
- `Date.setDate` calendar arithmetic is approximated as a fixed 86 400 000 ms per day.
  Daylight-saving days of 23 or 25 hours are not modelled.
- Environment variables are replaced by the `Config` value (defaults 15 minutes and
  30 days). Parsing a non-numeric `REFRESH_TOKEN_EXPIRY_DAYS` into `NaN` is not modelled.
- Concurrency: two racing refreshes of one secret can both pass the find step before
  either revokes. The code does not prevent this, and a sequential model cannot state it.
- The `replacedBy` successor link is always written as null, so it is not modelled.
- The order `findMany` returns candidates in is taken to be insertion order.
- Records are revoked by index, not by id; under `Db.Wf` ids are unique, so the two agree.
- Request fields that are JSON values other than strings are not modelled.
  The route's login is modelled with string fields only: an absent email would go to
  the ORM, whose behaviour is not part of this model.
- Profile fields `phone_number`, `address`, `avatar_image` and the timestamps are not modelled.
- The database schema is not part of this model. Whether it would reject an unknown role
  string, or an absent name, is not modelled.
- `src/types/api.ts` holds only wrapper types with no behaviour.
- AuthService.Login: success iff the credentials are valid is stated only under unique
  emails (`Db.UsersWf`). The unique-email constraint belongs to the database, and
  without it the code checks the first user found.
- AuthService.LoginWithRefresh: same condition as `AuthService.Login`.
- AuthRoutes.PostLogin: same condition as `AuthService.Login`.

## Findings

| source | as written | input that shows it | evidently intended | confidence | as-written member | corrected member |
|---|---|---|---|---|---|---|
| src/services/authService.ts:56-66 | login generates a refresh secret and stores its hash, but returns only `{accessToken}`; the controller sets no cookie, so the secret is discarded | any successful login, e.g. valid credentials for a registered user | hand the plaintext secret back, as `refresh` does with `newRefreshTokenPlain` and as the inline `/login` route does with its cookie | high, not executed | `AuthService.Login` (shown by `ServiceProperties.LoginHidesIssuedSecret`) | `AuthService.LoginWithRefresh` (proved by `ServiceProperties.LoginThenRefresh`) |
