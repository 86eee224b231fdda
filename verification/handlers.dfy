// The user handler's three operations: the current-session query, logout
// and the username/email existence check.
module Handlers {
  import opened Options
  import opened Users
  import opened Sessions

  /** Response bodies: the session view `{username, roles}` and the
      existence flag `{exists}`. */
  datatype Body = SessionInfo(username: string, roles: set<string>) | ExistsFlag(found: bool)

  datatype Response =
    | Ok(body: Body)
    | EmptyOk          // 200 with no body: the handler completed without a response
    | NoContent
    | BadRequest(error: string)
    | Unauthorized
    | Forbidden
    | NotFound
    | ServerError

  const ParamRequired := "request param username or email is required."

  /** The current-session query: the principal's username and the set of its
      authorities. Without a principal the handler completes with no
      response at all. */
  function Current(principal: Option<Principal>): (r: Option<Response>)
    ensures r.Some? <==> principal.Some?
    ensures r.Some? ==> r.value.Ok? && r.value.body.SessionInfo?
    ensures r.Some? ==> r.value.body.username == principal.value.username
    ensures r.Some? ==> forall a :: a in r.value.body.roles <==> a in principal.value.roles
  {
    match principal
    case None => None
    case Some(p) => Some(Ok(SessionInfo(p.username, Authorities(p))))
  }

  /** Invalidating the request's session: the binding is removed, and
      the invalidation completes without emitting a value. */
  function InvalidateSession(store: Store, token: Option<Token>): (r: (Store, Option<()>))
    ensures r.1.None?
    ensures Resolve(r.0, token).None?
    ensures forall t :: t in r.0 ==> t in store && r.0[t] == store[t]
    ensures forall t :: t in store && Some(t) != token ==> t in r.0
  {
    match token
    case None => (store, None)
    case Some(t) => (Invalidate(store, t).0, None)
  }

  /** Logout as written: the session is invalidated, and the 204 response
      is built in a `flatMap` on the invalidation's completion. That
      completion carries no value, so the response is never built and the
      handler completes with no response at all. */
  function Logout(store: Store, token: Option<Token>): (r: (Store, Option<Response>))
    ensures r.1.None?
    ensures Resolve(r.0, token).None?
    ensures forall t :: t in r.0 ==> t in store && r.0[t] == store[t]
    ensures forall t :: t in store && Some(t) != token ==> t in r.0
  {
    var (s, done) := InvalidateSession(store, token);
    (s, FlatMap(done, (_: ()) => Some(NoContent)))
  }

  /** Logout as evidently intended: the 204 response follows the
      invalidation's completion (`then` instead of `flatMap`). The session
      store ends up exactly as with the handler as written. */
  function LogoutIntended(store: Store, token: Option<Token>): (r: (Store, Option<Response>))
    ensures r.1 == Some(NoContent)
    ensures r.0 == Logout(store, token).0
    ensures Resolve(r.0, token).None?
    ensures forall t :: t in r.0 ==> t in store && r.0[t] == store[t]
    ensures forall t :: t in store && Some(t) != token ==> t in r.0
  {
    var (s, done) := InvalidateSession(store, token);
    (s, Then(done, Some(NoContent)))
  }

  /** The existence check. A `username` parameter takes precedence and is
      answered by the primary-key lookup; otherwise an `email` parameter is
      answered by the email lookup; with neither the request is refused. */
  function Exists(username: Option<string>, email: Option<string>, dir: Directory): (r: Response)
    ensures r.BadRequest? <==> username.None? && email.None?
    ensures r.BadRequest? ==> r.error == ParamRequired
    ensures !r.BadRequest? ==> r.Ok? && r.body.ExistsFlag?
  {
    match username
    case Some(name) => Ok(ExistsFlag(name in dir))
    case None =>
      match email
      case Some(e) => Ok(ExistsFlag(HasEmail(dir, e)))
      case None => BadRequest(ParamRequired)
  }

  /** With a `username` parameter the answer is whether a record has that
      username, and any `email` parameter is ignored. */
  lemma ExistsByUsername(name: string, email1: Option<string>, email2: Option<string>, dir: Directory)
    requires WellKeyed(dir)
    ensures Exists(Some(name), email1, dir) == Exists(Some(name), email2, dir)
    ensures Exists(Some(name), email1, dir) == Ok(ExistsFlag(HasUsername(dir, name)))
  {
  }

  /** Without a `username` parameter, an `email` parameter is answered with
      whether some record carries that email. */
  lemma ExistsByEmail(email: string, dir: Directory)
    ensures Exists(None, Some(email), dir).Ok?
    ensures Exists(None, Some(email), dir).body.found <==>
      exists u :: u in dir.Values && u.email == email
  {
  }

  /** The existence check as the handler runs it: the username lookup, and
      only when there is no username parameter, the email scan. */
  method ExistsQuery(username: Option<string>, email: Option<string>, dir: Directory) returns (r: Response)
    ensures r == Exists(username, email, dir)
  {
    if username.Some? {
      var found := username.value in dir;
      return Ok(ExistsFlag(found));
    }
    if email.None? {
      return BadRequest(ParamRequired);
    }
    var user := FindByEmail(dir, email.value);
    return Ok(ExistsFlag(user.Some?));
  }
}
