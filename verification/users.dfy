// The user directory and the mapping from a directory record to the security
// principal the authentication machinery works with.
module Users {
  import opened Options

  /** A directory record (the `users` table). `active` defaults to true and
      `roles` to the empty list when a record is built without them. */
  datatype User = User(username: string, password: string, email: string, active: bool, roles: seq<string>)

  /** Builds a record the way the record builder does when `active` and
      `roles` are not given: the declared defaults apply. */
  function NewUser(username: string, password: string, email: string): (u: User)
    ensures u.username == username && u.password == password && u.email == email
    ensures u.active
    ensures u.roles == []
  {
    User(username, password, email, true, [])
  }

  /** The directory, keyed by username (the table's primary key). */
  type Directory = map<string, User>

  /** Every record is stored under its own username. */
  predicate WellKeyed(dir: Directory)
  {
    forall k :: k in dir ==> dir[k].username == k
  }

  /** True iff some record of the directory has the given username. */
  predicate HasUsername(dir: Directory, username: string)
  {
    exists k :: k in dir && dir[k].username == username
  }

  /** True iff some record of the directory has the given email address. */
  predicate HasEmail(dir: Directory, email: string)
  {
    exists k :: k in dir && dir[k].email == email
  }

  /** The principal built from a record: account status flags, username,
      password and roles, as the security framework consumes them. */
  datatype Principal = Principal(
    username: string,
    password: string,
    roles: seq<string>,
    disabled: bool,
    accountLocked: bool,
    credentialsExpired: bool,
    accountExpired: bool)

  /** A principal that no account status check rejects. */
  predicate Usable(p: Principal)
  {
    !p.disabled && !p.accountLocked && !p.credentialsExpired && !p.accountExpired
  }

  /** The set of authorities granted by a principal's roles. */
  function Authorities(p: Principal): (a: set<string>)
    ensures forall r :: r in a <==> r in p.roles
  {
    set r | r in p.roles
  }

  /** Maps a record to its principal: identity data carried over, every
      status flag set exactly when the record is inactive. */
  function ToPrincipal(u: User): (p: Principal)
    ensures p.username == u.username && p.password == u.password && p.roles == u.roles
    ensures Usable(p) <==> u.active
    ensures !u.active ==> p.disabled && p.accountLocked && p.credentialsExpired && p.accountExpired
  {
    Principal(u.username, u.password, u.roles, !u.active, !u.active, !u.active, !u.active)
  }

  /** The user-details lookup: the principal of the record stored under
      `username`, or nothing when there is none. */
  function LoadPrincipal(dir: Directory, username: string): (r: Option<Principal>)
    ensures r.None? <==> username !in dir
    ensures r.Some? ==> r.value == ToPrincipal(dir[username])
  {
    if username in dir then Some(ToPrincipal(dir[username])) else None
  }

  /** For a well-keyed directory the lookup succeeds exactly for the
      usernames some record carries, and the principal has that username. */
  lemma LoadPrincipalByUsername(dir: Directory, username: string)
    requires WellKeyed(dir)
    ensures LoadPrincipal(dir, username).Some? <==> HasUsername(dir, username)
    ensures LoadPrincipal(dir, username).Some? ==> LoadPrincipal(dir, username).value.username == username
  {
  }

  /** A record built with the defaults yields a principal with none of the
      status flags set, carrying the record's identity data unchanged. */
  lemma DefaultUserIsUsable(username: string, password: string, email: string, roles: seq<string>)
    ensures var p := LoadPrincipal(map[username := NewUser(username, password, email).(roles := roles)], username);
      && p.Some?
      && Usable(p.value)
      && p.value.username == username && p.value.password == password && p.value.roles == roles
  {
  }

  /** Why an authentication attempt failed. */
  datatype AuthFailure =
    | AccountLocked
    | AccountDisabled
    | AccountExpired
    | InvalidCredentials
    | CredentialsExpired

  datatype AuthResult = Authenticated(principal: Principal) | Rejected(failure: AuthFailure)

  /** Username/password authentication against the directory. The password
      encoder is the opaque `matches(presented, stored)` predicate. An
      unknown username finds no principal and fails with the same invalid
      credentials as a wrong password. Account status is checked before the
      password (locked, disabled, expired), the credentials' expiry after
      it. */
  function Authenticate(dir: Directory, username: string, presented: string, matches: (string, string) -> bool): (r: AuthResult)
    ensures r.Authenticated? <==>
      && username in dir
      && dir[username].active
      && matches(presented, dir[username].password)
    ensures r.Authenticated? ==> r.principal == ToPrincipal(dir[username]) && Usable(r.principal)
    ensures username !in dir ==> r == Rejected(InvalidCredentials)
  {
    match LoadPrincipal(dir, username)
    case None => Rejected(InvalidCredentials)
    case Some(p) =>
      if p.accountLocked then Rejected(AccountLocked)
      else if p.disabled then Rejected(AccountDisabled)
      else if p.accountExpired then Rejected(AccountExpired)
      else if !matches(presented, p.password) then Rejected(InvalidCredentials)
      else if p.credentialsExpired then Rejected(CredentialsExpired)
      else Authenticated(p)
  }

  /** A failed attempt does not reveal whether the username exists: an
      unknown username is rejected exactly like a known, active user's wrong
      password. */
  lemma UnknownUserLooksLikeWrongPassword(dir: Directory, unknown: string, known: string, presented: string, matches: (string, string) -> bool)
    requires unknown !in dir
    requires known in dir && dir[known].active && !matches(presented, dir[known].password)
    ensures Authenticate(dir, unknown, presented, matches) == Authenticate(dir, known, presented, matches)
  {
  }

  /** An inactive account is rejected whatever password is presented, and
      the rejection does not depend on the password at all. */
  lemma InactiveNeverAuthenticates(dir: Directory, username: string, presented: string, matches: (string, string) -> bool)
    requires username in dir && !dir[username].active
    ensures Authenticate(dir, username, presented, matches) == Rejected(AccountLocked)
  {
  }

  /** The email lookup: scans the directory for a record whose email is
      `email`, returning one if there is any. */
  method FindByEmail(dir: Directory, email: string) returns (r: Option<User>)
    ensures r.Some? ==> r.value in dir.Values && r.value.email == email
    ensures r.None? <==> !HasEmail(dir, email)
  {
    var remaining := dir.Keys;
    while remaining != {}
      invariant remaining <= dir.Keys
      invariant forall k :: k in dir.Keys - remaining ==> dir[k].email != email
      decreases remaining
    {
      var k :| k in remaining;
      if dir[k].email == email {
        return Some(dir[k]);
      }
      remaining := remaining - {k};
    }
    return None;
  }
}
