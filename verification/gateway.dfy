// One request through the service: the session id resolves to a principal
// (or to none), the policy decides, and an allowed request is routed to the
// user handler. Also sign-in, which opens the session later requests present.
module Gateway {
  import opened Options
  import opened PathPatterns
  import opened Users
  import opened Sessions
  import opened Policy
  import opened Handlers

  /** A parsed request: method, path segments, query parameters (first value
      of each) and the session id from the session header, if any. */
  datatype Request = Request(httpMethod: Method, path: Path, query: map<string, string>, token: Option<Token>)

  /** The shared state: the user directory and the live sessions. */
  datatype State = State(dir: Directory, sessions: Store)

  function Param(req: Request, name: string): (r: Option<string>)
    ensures r.Some? <==> name in req.query
    ensures r.Some? ==> r.value == req.query[name]
  {
    if name in req.query then Some(req.query[name]) else None
  }

  /** The name of a request's authentication: its principal's username. */
  function CallerOf(p: Option<Principal>): (c: Caller)
    ensures c.Some? <==> p.Some?
    ensures c.Some? ==> c.value == p.value.username
  {
    match p
    case None => None
    case Some(q) => Some(q.username)
  }

  /** What the server sends for a handler's result: the response, or a
      200 with no body when the handler completed without one. */
  function Answer(resp: Option<Response>): (a: Response)
    ensures resp.Some? ==> a == resp.value
    ensures resp.None? ==> a == EmptyOk
  {
    match resp
    case Some(r) => r
    case None => EmptyOk
  }

  /** The routes: `GET /session`, `DELETE /session`, `GET /users/exists`;
      any other allowed request finds no handler. */
  function Route(state: State, req: Request, principal: Option<Principal>): (r: (State, Response))
    ensures r.0.dir == state.dir
    ensures r.0.sessions.Keys <= state.sessions.Keys
    ensures forall t :: t in r.0.sessions ==> r.0.sessions[t] == state.sessions[t]
    ensures r.0 != state ==> req.httpMethod == DELETE && req.path == ["session"]
  {
    if req.path == ["session"] && req.httpMethod == GET then
      (state, Answer(Current(principal)))
    else if req.path == ["session"] && req.httpMethod == DELETE then
      var (store, resp) := Logout(state.sessions, req.token);
      (state.(sessions := store), Answer(resp))
    else if req.path == ["users", "exists"] && req.httpMethod == GET then
      (state, Exists(Param(req, "username"), Param(req, "email"), state.dir))
    else
      (state, NotFound)
  }

  /** Handles one request. A denied request is answered 401 when there is no
      authentication and 403 otherwise, and changes nothing. The directory is
      never changed, no session is ever created here, a session that stays
      live keeps its principal, and only `DELETE /session` changes anything. */
  function Handle(state: State, req: Request): (r: (State, Response))
    ensures r.0.dir == state.dir
    ensures r.0.sessions.Keys <= state.sessions.Keys
    ensures forall t :: t in r.0.sessions ==> r.0.sessions[t] == state.sessions[t]
    ensures r.0 != state ==> req.httpMethod == DELETE && req.path == ["session"]
    ensures r.1 == Unauthorized || r.1 == Forbidden ==> r.0 == state
  {
    var principal := Resolve(state.sessions, req.token);
    var caller := CallerOf(principal);
    match Decide(SecurityRules, req.httpMethod, req.path, caller)
    case Allow => Route(state, req, principal)
    case Deny => (state, if DenialStatus(caller) == 401 then Unauthorized else Forbidden)
    case Error => (state, ServerError)
  }

  /** Logging out needs a session: the `/session` rule covers every method,
      so a request without a live session is refused with 401 and nothing
      changes. */
  lemma LogoutWithoutSessionIsRefused(state: State, token: Option<Token>, query: map<string, string>)
    requires token.None? || token.value !in state.sessions
    ensures Handle(state, Request(DELETE, ["session"], query, token)) == (state, Unauthorized)
  {
    SessionNeedsAuthentication(DELETE, None);
  }

  /** Logging out with a live session ends that session only (the others
      keep their principals), and the answer is a 200 with no body: the 204
      the handler builds is never sent. */
  lemma LogoutEndsTheSession(state: State, token: Token, query: map<string, string>)
    requires token in state.sessions
    ensures var r := Handle(state, Request(DELETE, ["session"], query, Some(token)));
      && r.1 == EmptyOk
      && r.1 != NoContent
      && Resolve(r.0.sessions, Some(token)).None?
      && r.0.sessions.Keys == state.sessions.Keys - {token}
      && (forall t :: t in r.0.sessions ==> r.0.sessions[t] == state.sessions[t])
  {
    SessionNeedsAuthentication(DELETE, Some(state.sessions[token].username));
  }

  /** The current-session query answers with exactly the caller's username
      and authorities, and is refused with 401 without a live session. */
  lemma CurrentReportsTheCaller(state: State, token: Option<Token>, query: map<string, string>)
    ensures var r := Handle(state, Request(GET, ["session"], query, token));
      && r.0 == state
      && (token.Some? && token.value in state.sessions ==>
            r.1 == Ok(SessionInfo(state.sessions[token.value].username, Authorities(state.sessions[token.value]))))
      && (token.None? || token.value !in state.sessions ==> r.1 == Unauthorized)
  {
    SessionNeedsAuthentication(GET, CallerOf(Resolve(state.sessions, token)));
  }

  /** The existence check is answered the same way with or without a
      session: it never reveals whether the caller is authenticated. */
  lemma ExistsCheckIgnoresSession(state: State, query: map<string, string>, token: Option<Token>)
    ensures Handle(state, Request(GET, ["users", "exists"], query, token))
      == (state, Exists(Param(Request(GET, ["users", "exists"], query, token), "username"),
                        Param(Request(GET, ["users", "exists"], query, token), "email"), state.dir))
  {
  }

  /** A path under `users/<u>` requested by a live session of another user
      is forbidden (403); requested by the user `u` it passes the policy and
      finds no handler (404). Either way nothing changes. */
  lemma OwnerPathRequiresOwner(state: State, m: Method, u: string, rest: Path, query: map<string, string>, token: Token)
    requires token in state.sessions
    requires !(m == GET && u == "exists" && rest == [])
    ensures var r := Handle(state, Request(m, ["users", u] + rest, query, token := Some(token)));
      && (state.sessions[token].username == u ==> r == (state, NotFound))
      && (state.sessions[token].username != u ==> r == (state, Forbidden))
  {
    var path := ["users", u] + rest;
    OwnerPathNeedsMatchingName(m, u, rest, Some(state.sessions[token].username));
    assert path != ["session"] by {
      assert |path| >= 2;
    }
    assert path == ["users", "exists"] ==> m != GET by {
      if path == ["users", "exists"] {
        assert u == path[1] && rest == path[2..];
      }
    }
  }

  /** A request none of the first three rules selects is refused with 401
      when it carries no live session (deny by default). */
  lemma UnlistedPathWithoutSessionIsRefused(state: State, req: Request)
    requires req.token.None? || req.token.value !in state.sessions
    requires !Selects(ExistsRule, req.httpMethod, req.path)
    requires !Selects(SessionRule, req.httpMethod, req.path)
    requires !Selects(OwnerRule, req.httpMethod, req.path)
    ensures Handle(state, req) == (state, Unauthorized)
  {
    UnlistedPathNeedsAuthentication(req.httpMethod, req.path, None);
  }

  /** Sign-in: on successful authentication a session bound to the
      principal is opened under the new id the session collaborator
      supplies and every other session is kept as it was; on failure
      nothing changes. */
  function SignIn(state: State, username: string, presented: string, matches: (string, string) -> bool, newId: Token): (r: (State, AuthResult))
    requires newId !in state.sessions
    ensures r.0.dir == state.dir
    ensures r.1 == Authenticate(state.dir, username, presented, matches)
    ensures r.1.Rejected? ==> r.0 == state
    ensures r.1.Authenticated? ==> Resolve(r.0.sessions, Some(newId)) == Some(r.1.principal)
    ensures r.1.Authenticated? ==> r.0.sessions.Keys == state.sessions.Keys + {newId}
    ensures r.1.Authenticated? ==> forall t :: t in state.sessions ==> r.0.sessions[t] == state.sessions[t]
  {
    var result := Authenticate(state.dir, username, presented, matches);
    match result
    case Rejected(_) => (state, result)
    case Authenticated(p) => (state.(sessions := Open(state.sessions, newId, p)), result)
  }

  /** After signing in, the new session's id lets its holder read their own
      username and roles back, and an inactive user never gets a session. */
  lemma SignInThenCurrent(state: State, username: string, presented: string, matches: (string, string) -> bool, newId: Token)
    requires newId !in state.sessions
    requires WellKeyed(state.dir)
    ensures var (s, result) := SignIn(state, username, presented, matches, newId);
      && (username in state.dir && !state.dir[username].active ==> result.Rejected? && s == state)
      && (result.Authenticated? ==>
            Handle(s, Request(GET, ["session"], map[], Some(newId))).1
              == Ok(SessionInfo(username, set r | r in state.dir[username].roles)))
  {
    var (s, result) := SignIn(state, username, presented, matches, newId);
    if result.Authenticated? {
      CurrentReportsTheCaller(s, Some(newId), map[]);
    }
  }
}
