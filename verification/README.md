# Auth service: authorization policy, principal mapping and session handlers

A Dafny model of the decision logic of the reactive authentication service
(`AuthServiceApplication.java`). The service keeps a user directory, signs
users in with HTTP Basic, keeps the resulting security context in a web
session whose id travels in a request header, and answers three requests:
`GET /session` (who am I), `DELETE /session` (logout) and
`GET /users/exists?username=|email=` (existence check). Every request first
passes an ordered authorization rule table.

The model is functional: immutable datatypes and pure functions over
sequences and maps, one module per concern.

- `options.dfy` (`Options`): the `Option` datatype.
- `path_patterns.dfy` (`PathPatterns`): a segment-based path matcher. A
  pattern is literal segments and `{name}` variables, each binding exactly
  one segment, optionally followed by a trailing `**` that matches zero or
  more segments. `Match` is proved against the declarative `Fits`.
- `users.dfy` (`Users`): the `User` record with its builder defaults, the
  directory as `map<string, User>` keyed by username, the record-to-principal
  mapping (`LoadPrincipal`), username/password authentication and the email
  scan.
- `sessions.dfy` (`Sessions`): the session store as `map<Token, Principal>`
  with resolve, open and invalidate.
- `policy.dfy` (`Policy`): rules, first-decisive-rule evaluation (`Decide`),
  the configured four-rule table `SecurityRules`, and the properties of that
  table.
- `handlers.dfy` (`Handlers`): `Current`, `Logout`, `Exists`.
- `gateway.dfy` (`Gateway`): one request end to end (`Handle`), and sign-in.

How the rule table is evaluated. The table is
`GET /users/exists` permit-all, `/session` authenticated,
`/users/{user}/**` ownership check, anything else authenticated. Rules are
consulted in declaration order and the first rule that gives a decision
wins; when none decides the request is denied. The ownership check maps the
request's authentication to "path variable `user` equals the
authentication's name". With no authentication it produces no decision at
all, so evaluation continues to the catch-all rule, which denies. The model
keeps that distinction (`Verdict.Abstain`). Continuing past a rule that
gives no decision, and denying when no rule decides, is how the security
library's delegating authorization manager evaluates the table. That
manager is not part of this model. The outcome is the same as
"absent authentication means deny": `OwnerPathNeedsMatchingName` proves
that an anonymous caller is denied.

Logging out requires a session. The `/session` rule is `authenticated()` for
every method, so `DELETE /session` without a live session is refused with
401 before the logout handler runs (`LogoutWithoutSessionIsRefused`). It is
not a no-op success.

With a live session, logout invalidates it but never answers 204 (see
Findings). The handler builds its 204 in a `flatMap` on the invalidation's
completion. That completion emits no value, so the handler completes with
no response, and the server sends a 200 with no body. `Handlers.Logout` and
`Gateway` model this as written, so the end-to-end lemmas describe what the
service does. `Handlers.LogoutIntended` is the corrected handler.

Inputs the model takes as parameters: the password encoder's
`matches(presented, stored)` check, and the new session id handed out at
sign-in. Clocks, I/O and the network do not appear.

## Model

| member | source | states |
|---|---|---|
| PathPatterns.Match | auth-service/src/main/java/com/example/authservice/AuthServiceApplication.java:86-88 | a path matches exactly when its length fits the pattern (exact, or at least as long with a trailing `**`) and every literal segment agrees; every variable is bound, and each binding is the segment at a position where that variable stands |
| Options.FlatMap | auth-service/src/main/java/com/example/authservice/AuthServiceApplication.java:154-155 | the reactive `flatMap`: an empty publisher stays empty and the continuation never runs; a value is passed to the continuation |
| Options.Then | auth-service/src/main/java/com/example/authservice/AuthServiceApplication.java:155 | the reactive `then` (the corrected logout's composition): after completion, with or without a value, the result is the continuation |
| Users.NewUser | auth-service/src/main/java/com/example/authservice/AuthServiceApplication.java:274-277 | a record built without `active`/`roles` is active and has no roles |
| Users.Authorities | auth-service/src/main/java/com/example/authservice/AuthServiceApplication.java:145 | the authority set holds exactly the principal's roles |
| Users.ToPrincipal | auth-service/src/main/java/com/example/authservice/AuthServiceApplication.java:104-112 | username, password and roles are carried over; the principal passes every status check iff the record is active; an inactive record gives a disabled, locked, credentials-expired and account-expired principal |
| Users.LoadPrincipal | auth-service/src/main/java/com/example/authservice/AuthServiceApplication.java:101-115 | the lookup yields nothing exactly for an unknown username, and otherwise the mapped principal of the stored record |
| Users.LoadPrincipalByUsername | auth-service/src/main/java/com/example/authservice/AuthServiceApplication.java:102-103 | in a directory keyed by username, the lookup succeeds iff some record carries the username, and the principal has that username |
| Users.DefaultUserIsUsable | auth-service/src/main/java/com/example/authservice/AuthServiceApplication.java:274-275 | a record relying on the `active` default yields a principal with no status flag set and its identity data unchanged |
| Users.Authenticate | auth-service/src/main/java/com/example/authservice/AuthServiceApplication.java:101-115 | sign-in succeeds iff the username is known, the record is active and the password matches; the result is the mapped principal; an unknown username fails with the same invalid-credentials failure as a wrong password |
| Users.UnknownUserLooksLikeWrongPassword | auth-service/src/main/java/com/example/authservice/AuthServiceApplication.java:101-103 | a failed sign-in does not reveal whether the username exists: an unknown username is rejected exactly like an active user's wrong password |
| Users.InactiveNeverAuthenticates | auth-service/src/main/java/com/example/authservice/AuthServiceApplication.java:108-111 | an inactive account is rejected (as locked) whatever password is presented |
| Users.FindByEmail | auth-service/src/main/java/com/example/authservice/AuthServiceApplication.java:224-225 | the scan returns a stored record with that email, and returns nothing iff no record has it |
| Sessions.Resolve | auth-service/src/main/java/com/example/authservice/AuthServiceApplication.java:72-77 | a request's session id yields a principal iff it names a live session, and then that session's principal |
| Sessions.Open | auth-service/src/main/java/com/example/authservice/AuthServiceApplication.java:83 | opening a session adds exactly the new id and keeps every existing session |
| Sessions.Invalidate | auth-service/src/main/java/com/example/authservice/AuthServiceApplication.java:154 | invalidation removes exactly that id, leaves the other sessions untouched, and reports whether the id was live |
| Sessions.OpenThenResolve | auth-service/src/main/java/com/example/authservice/AuthServiceApplication.java:83 | a newly opened session resolves to the principal it was opened for |
| Sessions.InvalidateThenResolve | auth-service/src/main/java/com/example/authservice/AuthServiceApplication.java:152-156 | after invalidation the id resolves to nothing and every other id resolves as before |
| Sessions.InvalidateTwice | auth-service/src/main/java/com/example/authservice/AuthServiceApplication.java:154 | invalidating twice reports true then false; the second call changes nothing |
| Policy.Check | auth-service/src/main/java/com/example/authservice/AuthServiceApplication.java:86-98 | permit-all always grants; authenticated grants iff there is an authentication; ownership grants iff the path variable equals the authentication's name, gives no decision without an authentication, and fails on an unbound variable |
| Policy.RuleVerdict | auth-service/src/main/java/com/example/authservice/AuthServiceApplication.java:86-89 | a rule gives no decision unless its method (any, when none is given) and its pattern select the request; then it gives its requirement's check on the match's variables; a grant needs permit-all or an authentication |
| Policy.Decide | auth-service/src/main/java/com/example/authservice/AuthServiceApplication.java:85-89 | an allowed request is granted by some rule of the table |
| Policy.DecideIsFirstDecisive | auth-service/src/main/java/com/example/authservice/AuthServiceApplication.java:85-89 | the decision is that of the first rule giving one, in declaration order, and deny when no rule decides |
| Policy.DecideSecurityRules | auth-service/src/main/java/com/example/authservice/AuthServiceApplication.java:85-89 | the configured table's decision is the first non-abstaining verdict among its four rules, in order |
| Policy.DenialStatus | auth-service/src/main/java/com/example/authservice/AuthServiceApplication.java:83 | a denial is 401 without an authentication and 403 with one |
| Policy.AnyRuleVerdict | auth-service/src/main/java/com/example/authservice/AuthServiceApplication.java:89 | the catch-all selects every request and grants iff there is an authentication |
| Policy.UserPatternMatch | auth-service/src/main/java/com/example/authservice/AuthServiceApplication.java:88 | `/users/{user}/**` matches exactly the paths of two or more segments starting with `users`, binding `user` to the second segment |
| Policy.ExistsCheckIsPublic | auth-service/src/main/java/com/example/authservice/AuthServiceApplication.java:86 | `GET /users/exists` is allowed for every caller, anonymous included |
| Policy.ExistsCheckDependsOnOrder | auth-service/src/main/java/com/example/authservice/AuthServiceApplication.java:86-88 | `/users/exists` also matches the ownership pattern with `user` = `exists`; with the ownership rule first, an authenticated caller of another name would be denied |
| Policy.SessionNeedsAuthentication | auth-service/src/main/java/com/example/authservice/AuthServiceApplication.java:87 | `/session` with any method is allowed iff there is an authentication |
| Policy.OwnerRuleVerdict | auth-service/src/main/java/com/example/authservice/AuthServiceApplication.java:94-98 | on a path under `users/` the ownership rule gives no decision without an authentication, and otherwise grants iff the authentication's name is the second segment |
| Policy.OwnerPathDecision | auth-service/src/main/java/com/example/authservice/AuthServiceApplication.java:86-98 | under the configured table, a path under `users/` (other than `GET /users/exists`) is allowed iff the authentication's name is its second segment |
| Policy.OwnerPathNeedsMatchingName | auth-service/src/main/java/com/example/authservice/AuthServiceApplication.java:88-98 | a request to `/users/<u>/...` (other than `GET /users/exists`) is allowed iff the authentication's name is `u`; an anonymous request is denied |
| Policy.UnlistedPathNeedsAuthentication | auth-service/src/main/java/com/example/authservice/AuthServiceApplication.java:86-89 | a request none of the first three rules selects is allowed iff there is an authentication |
| Policy.SecurityRulesNeverFail | auth-service/src/main/java/com/example/authservice/AuthServiceApplication.java:94-98 | the configured table never reaches the failing case of the ownership check |
| Handlers.Current | auth-service/src/main/java/com/example/authservice/AuthServiceApplication.java:136-150 | with a principal the answer is 200 with exactly its username and the set of its roles; without one there is no response |
| Handlers.InvalidateSession | auth-service/src/main/java/com/example/authservice/AuthServiceApplication.java:153-154 | the request's id no longer resolves, no other session is removed or changed, and the invalidation completes without a value |
| Handlers.Logout | auth-service/src/main/java/com/example/authservice/AuthServiceApplication.java:152-156 | as written: the request's id no longer resolves and no other session is removed or changed; the handler completes with no response, so it never answers 204 |
| Handlers.LogoutIntended | auth-service/src/main/java/com/example/authservice/AuthServiceApplication.java:155 | corrected: the same session store as the handler as written, and the answer is 204 No Content |
| Handlers.Exists | auth-service/src/main/java/com/example/authservice/AuthServiceApplication.java:158-173 | bad request with "request param username or email is required." iff neither parameter is given; otherwise 200 with an existence flag |
| Handlers.ExistsByUsername | auth-service/src/main/java/com/example/authservice/AuthServiceApplication.java:167-172 | with a `username` parameter the flag is whether a record has that username, and the `email` parameter makes no difference |
| Handlers.ExistsByEmail | auth-service/src/main/java/com/example/authservice/AuthServiceApplication.java:160-165 | with only an `email` parameter the flag is whether some record has that email |
| Handlers.ExistsQuery | auth-service/src/main/java/com/example/authservice/AuthServiceApplication.java:158-173 | the handler as run (username lookup, else the email scan, else bad request) answers exactly as the existence check's definition |
| Gateway.Param | auth-service/src/main/java/com/example/authservice/AuthServiceApplication.java:160-167 | a query parameter is present iff the request carries it, and then has the request's value |
| Gateway.CallerOf | auth-service/src/main/java/com/example/authservice/AuthServiceApplication.java:96 | the name the ownership check compares is the principal's username, and there is a name iff there is a principal |
| Gateway.Answer | auth-service/src/main/java/com/example/authservice/AuthServiceApplication.java:136-156 | a handler's response is sent as built; a handler that completes without one is answered 200 with no body |
| Gateway.Route | auth-service/src/main/java/com/example/authservice/AuthServiceApplication.java:117-123 | routing never changes the directory or adds sessions, a session that stays live keeps its principal, and only `DELETE /session` changes the state |
| Gateway.Handle | auth-service/src/main/java/com/example/authservice/AuthServiceApplication.java:80-92 | a request never changes the directory or opens a session; a session that stays live keeps its principal; only `DELETE /session` changes the state; a refused request (401/403) changes nothing |
| Gateway.LogoutWithoutSessionIsRefused | auth-service/src/main/java/com/example/authservice/AuthServiceApplication.java:87 | `DELETE /session` without a live session is answered 401 and changes nothing |
| Gateway.LogoutEndsTheSession | auth-service/src/main/java/com/example/authservice/AuthServiceApplication.java:152-156 | `DELETE /session` with a live session removes exactly that session, the others keep their principals, and the answer is 200 with no body, never 204 |
| Gateway.CurrentReportsTheCaller | auth-service/src/main/java/com/example/authservice/AuthServiceApplication.java:136-150 | `GET /session` answers the caller's username and authority set with a live session and 401 without one, changing nothing |
| Gateway.ExistsCheckIgnoresSession | auth-service/src/main/java/com/example/authservice/AuthServiceApplication.java:86 | `GET /users/exists` is answered by the existence check whether or not a session is presented |
| Gateway.OwnerPathRequiresOwner | auth-service/src/main/java/com/example/authservice/AuthServiceApplication.java:88-98 | under `/users/<u>` a live session of another user is answered 403, and the user `u` passes the policy and gets 404 (no route); nothing changes |
| Gateway.UnlistedPathWithoutSessionIsRefused | auth-service/src/main/java/com/example/authservice/AuthServiceApplication.java:89 | a request none of the first three rules selects, without a live session, is answered 401 |
| Gateway.SignIn | auth-service/src/main/java/com/example/authservice/AuthServiceApplication.java:83 | a successful sign-in opens a session that resolves to the authenticated principal and keeps every other session unchanged; a failed one changes nothing |
| Gateway.SignInThenCurrent | auth-service/src/main/java/com/example/authservice/AuthServiceApplication.java:101-115 | an inactive user never gets a session; after a successful sign-in, `GET /session` with the new id returns that user's username and roles |

## Left out

- Application bootstrap, service discovery and `main`: no decision logic.
- The route registration is modelled only as the three-way dispatch in `Gateway.Route`. An allowed request with no route is answered 404.
- The Cassandra repository, its `ALLOW FILTERING` query and keyspace configuration: the directory is a map keyed by username.
- Users.FindByEmail: returns some record with the email. Which record the store returns when several share an email (or whether it fails) is not modelled. The existence check only needs whether one exists.
- Password hashing and the delegating encoder: password checking is the `matches` parameter.
- The header-based session id resolver, CSRF and the HTTP Basic transport: a request carries an optional session id. New ids are a parameter of sign-in, assumed not to name a live session.
- The per-request Basic credentials path is not modelled. Sign-in is modelled as a separate step (`Gateway.SignIn`) that opens a session.
- Users.Authenticate: the check order belongs to the security library's reactive authentication manager, which is not part of this model. The model follows the order of Spring Security 5.2 and later: an unknown username fails like a wrong password; locked, disabled and account-expired are checked before the password, credentials-expired after it. Older versions skip the status checks.
- The startup data seeding is not modelled. It deletes all users and saves `user` (roles `[USER]`) and `admin` (roles `[USER, ADMIN]`), each with email `<username>@example.com`.
- Reactive `Mono`/`Flux` plumbing, session-store concurrency and linearizability: the model is sequential.
- Users.Authorities: the security library's `roles(...)` builder prefixes each role with `ROLE_` and rejects roles that already carry it. The model keeps roles unchanged, so `current` reports the role names themselves. The library's rejection of an empty username or a missing password is not modelled either.
- Path matching: paths arrive already split into non-empty segments. Trailing-slash tolerance, percent-decoding, `*`/`?` wildcards and regex-constrained variables are not modelled.
- Method matching is exact. Automatic `HEAD` handling for `GET` routes is not modelled.
- The 401/403 split for denials (`Policy.DenialStatus`) follows the security library's exception translation. It depends only on whether an authentication is present.
- `Handlers.Current` without a principal produces no response, which `Gateway.Answer` sends as a 200 with no body. The policy never lets this case happen (`Gateway.CurrentReportsTheCaller`).
- JSON serialisation of response bodies: bodies are datatypes.

## Findings

| source | as written | input that shows it | evidently intended | confidence | as-written member | corrected member |
|---|---|---|---|---|---|---|
| auth-service/src/main/java/com/example/authservice/AuthServiceApplication.java:153-155 | the 204 response is built in `flatMap` after `WebSession::invalidate`, whose `Mono<Void>` completes without a value, so the response is never built | `DELETE /session` with a live session id: the session is invalidated and the answer is 200 with no body | answer 204 No Content once the invalidation completes (`.then(noContent().build())`) | high, not executed | Handlers.Logout, Gateway.LogoutEndsTheSession | Handlers.LogoutIntended |
