// The authorization policy: an ordered rule table consulted per request.
//
// Rules are consulted in declaration order. A rule whose method and path
// pattern select the request is asked for a decision; the first decision
// given is final. A check may also give no decision at all (the ownership
// check does so when there is no authentication), in which case the scan
// moves on to the next rule. When no rule decides, access is denied.
module Policy {
  import opened Options
  import opened PathPatterns

  datatype Method = GET | HEAD | POST | PUT | PATCH | DELETE | OPTIONS | TRACE

  /** The name of the request's authentication, or None when there is none. */
  type Caller = Option<string>

  datatype Requirement =
    | PermitAll
    | Authenticated
    | Owner(variable: string)   // the path variable must equal the caller's name

  /** A rule: an optional method (None matches every method), a path
      pattern and the requirement applied to what they select. */
  datatype Rule = Rule(httpMethod: Option<Method>, pattern: Pattern, requirement: Requirement)

  /** What one rule says about a request: a positive or negative decision,
      no decision, or a failure (the ownership check reading a path variable
      the pattern does not bind). */
  datatype Verdict = Grant | Refuse | Abstain | Fail

  datatype Decision = Allow | Deny | Error

  predicate Selects(rule: Rule, m: Method, path: Path)
  {
    (rule.httpMethod.None? || rule.httpMethod.value == m) && Match(rule.pattern, path).Some?
  }

  /** The requirement's check, given the path variables of the match. */
  function Check(req: Requirement, vars: Bindings, caller: Caller): (v: Verdict)
    ensures v == Grant <==>
      req.PermitAll? || (req.Authenticated? && caller.Some?)
      || (req.Owner? && caller.Some? && req.variable in vars && vars[req.variable] == caller.value)
    ensures v == Abstain <==> req.Owner? && caller.None?
    ensures v == Fail <==> req.Owner? && caller.Some? && req.variable !in vars
  {
    match req
    case PermitAll => Grant
    case Authenticated => if caller.Some? then Grant else Refuse
    case Owner(x) =>
      match caller
      case None => Abstain
      case Some(name) =>
        if x !in vars then Fail
        else if vars[x] == name then Grant
        else Refuse
  }

  /** The verdict of one rule on a request; a rule that does not select
      the request gives no decision. */
  function RuleVerdict(rule: Rule, m: Method, path: Path, caller: Caller): (v: Verdict)
    ensures !Selects(rule, m, path) ==> v == Abstain
    ensures Selects(rule, m, path) ==> v == Check(rule.requirement, Match(rule.pattern, path).value, caller)
    ensures v == Grant ==> Selects(rule, m, path) && (rule.requirement.PermitAll? || caller.Some?)
  {
    match Match(rule.pattern, path)
    case Some(vars) =>
      if rule.httpMethod.None? || rule.httpMethod.value == m then Check(rule.requirement, vars, caller) else Abstain
    case None => Abstain
  }

  /** The decision a verdict stands for, once it is the one that counts. */
  function Outcome(v: Verdict): Decision
  {
    match v
    case Grant => Allow
    case Refuse => Deny
    case Abstain => Deny
    case Fail => Error
  }

  /** The policy decision for a request: first decisive rule wins, no
      decisive rule means deny. */
  function Decide(rules: seq<Rule>, m: Method, path: Path, caller: Caller): (d: Decision)
    ensures d == Allow ==> exists i :: 0 <= i < |rules| && RuleVerdict(rules[i], m, path, caller) == Grant
  {
    if rules == [] then Deny
    else
      var v := RuleVerdict(rules[0], m, path, caller);
      if v == Abstain then
        var d := Decide(rules[1..], m, path, caller);
        assert d == Allow ==> exists i :: 0 <= i < |rules| && RuleVerdict(rules[i], m, path, caller) == Grant by {
          if d == Allow {
            var j :| 0 <= j < |rules[1..]| && RuleVerdict(rules[1..][j], m, path, caller) == Grant;
            assert rules[j + 1] == rules[1..][j];
          }
        }
        d
      else Outcome(v)
  }

  /** Independent statement of first-match evaluation: the decision is that
      of the first rule giving one, and deny when none does. */
  lemma {:induction false} DecideIsFirstDecisive(rules: seq<Rule>, m: Method, path: Path, caller: Caller)
    ensures (forall i :: 0 <= i < |rules| ==> RuleVerdict(rules[i], m, path, caller) == Abstain) ==>
      Decide(rules, m, path, caller) == Deny
    ensures forall i ::
      (&& 0 <= i < |rules|
       && RuleVerdict(rules[i], m, path, caller) != Abstain
       && (forall j :: 0 <= j < i ==> RuleVerdict(rules[j], m, path, caller) == Abstain)) ==>
      Decide(rules, m, path, caller) == Outcome(RuleVerdict(rules[i], m, path, caller))
  {
    if rules != [] {
      DecideIsFirstDecisive(rules[1..], m, path, caller);
      if RuleVerdict(rules[0], m, path, caller) == Abstain {
        forall i | 0 <= i < |rules| && RuleVerdict(rules[i], m, path, caller) != Abstain
          && (forall j :: 0 <= j < i ==> RuleVerdict(rules[j], m, path, caller) == Abstain)
          ensures Decide(rules, m, path, caller) == Outcome(RuleVerdict(rules[i], m, path, caller))
        {
          assert rules[1..][i - 1] == rules[i];
          forall j | 0 <= j < i - 1
            ensures RuleVerdict(rules[1..][j], m, path, caller) == Abstain
          {
            assert rules[1..][j] == rules[j + 1];
          }
        }
        if forall i :: 0 <= i < |rules| ==> RuleVerdict(rules[i], m, path, caller) == Abstain {
          forall j | 0 <= j < |rules[1..]|
            ensures RuleVerdict(rules[1..][j], m, path, caller) == Abstain
          {
            assert rules[1..][j] == rules[j + 1];
          }
        }
      }
    }
  }

  /** How a denial is answered: without an authentication the caller is
      asked to authenticate (401), otherwise access is forbidden (403). */
  function DenialStatus(caller: Caller): (status: nat)
    ensures status == 401 <==> caller.None?
    ensures status == 403 <==> caller.Some?
  {
    if caller.None? then 401 else 403
  }

  // The security configuration's rule table, in declaration order.

  const ExistsPattern := Pattern([Literal("users"), Literal("exists")], false)   // /users/exists
  const SessionPattern := Pattern([Literal("session")], false)                   // /session
  const UserPattern := Pattern([Literal("users"), Variable("user")], true)       // /users/{user}/**
  const AnyPattern := Pattern([], true)                                          // any exchange

  const ExistsRule := Rule(Some(GET), ExistsPattern, PermitAll)
  const SessionRule := Rule(None, SessionPattern, Authenticated)
  const OwnerRule := Rule(None, UserPattern, Owner("user"))
  const AnyRule := Rule(None, AnyPattern, Authenticated)

  const SecurityRules: seq<Rule> := [ExistsRule, SessionRule, OwnerRule, AnyRule]

  /** Decision of the configured table in terms of its four rules' verdicts. */
  lemma {:induction false} DecideSecurityRules(m: Method, path: Path, caller: Caller)
    ensures Decide(SecurityRules, m, path, caller) ==
      var v0 := RuleVerdict(ExistsRule, m, path, caller);
      var v1 := RuleVerdict(SessionRule, m, path, caller);
      var v2 := RuleVerdict(OwnerRule, m, path, caller);
      var v3 := RuleVerdict(AnyRule, m, path, caller);
      if v0 != Abstain then Outcome(v0)
      else if v1 != Abstain then Outcome(v1)
      else if v2 != Abstain then Outcome(v2)
      else Outcome(v3)
  {
    var r0 := SecurityRules;
    var r1 := [SessionRule, OwnerRule, AnyRule];
    var r2 := [OwnerRule, AnyRule];
    var r3 := [AnyRule];
    assert r0[0] == ExistsRule && r0[1..] == r1;
    assert r1[0] == SessionRule && r1[1..] == r2;
    assert r2[0] == OwnerRule && r2[1..] == r3;
    assert r3[0] == AnyRule && r3[1..] == [];
    var v3 := RuleVerdict(AnyRule, m, path, caller);
    assert Decide(r3, m, path, caller) == Outcome(v3);
    var v2 := RuleVerdict(OwnerRule, m, path, caller);
    assert Decide(r2, m, path, caller) == if v2 != Abstain then Outcome(v2) else Outcome(v3);
    var v1 := RuleVerdict(SessionRule, m, path, caller);
    assert Decide(r1, m, path, caller) == if v1 != Abstain then Outcome(v1) else Decide(r2, m, path, caller);
    var v0 := RuleVerdict(ExistsRule, m, path, caller);
    assert Decide(r0, m, path, caller) == if v0 != Abstain then Outcome(v0) else Decide(r1, m, path, caller);
  }

  /** The catch-all rule selects every request and decides on the caller's
      presence alone. */
  lemma AnyRuleVerdict(m: Method, path: Path, caller: Caller)
    ensures RuleVerdict(AnyRule, m, path, caller) == (if caller.Some? then Grant else Refuse)
  {
  }

  /** The ownership pattern matches exactly the paths `users/<u>/...`, and
      binds `user` to `u`. */
  lemma UserPatternMatch(path: Path)
    ensures Match(UserPattern, path).Some? <==> |path| >= 2 && path[0] == "users"
    ensures Match(UserPattern, path).Some? ==>
      "user" in Match(UserPattern, path).value && Match(UserPattern, path).value["user"] == path[1]
  {
  }

  /** `GET /users/exists` is allowed for every caller, anonymous included. */
  lemma ExistsCheckIsPublic(caller: Caller)
    ensures Decide(SecurityRules, GET, ["users", "exists"], caller) == Allow
  {
  }

  /** The same path also fits the ownership pattern, with `user` bound to
      "exists": only the exists rule's earlier position keeps the ownership
      check away from it. With the ownership rule moved first, an
      authenticated caller with another name would be denied. */
  lemma ExistsCheckDependsOnOrder(name: string)
    requires name != "exists"
    ensures Match(UserPattern, ["users", "exists"]) == Some(map["user" := "exists"])
    ensures Decide([OwnerRule, ExistsRule, SessionRule, AnyRule], GET, ["users", "exists"], Some(name)) == Deny
  {
  }

  /** `/session`, with any method, is allowed iff there is an authentication. */
  lemma SessionNeedsAuthentication(m: Method, caller: Caller)
    ensures Decide(SecurityRules, m, ["session"], caller) == Allow <==> caller.Some?
    ensures Decide(SecurityRules, m, ["session"], caller) != Error
  {
  }

  /** On a path under `users/` the ownership rule gives no decision without
      an authentication, and otherwise grants iff the name is the second
      segment. */
  lemma OwnerRuleVerdict(m: Method, path: Path, caller: Caller)
    requires |path| >= 2 && path[0] == "users"
    ensures RuleVerdict(OwnerRule, m, path, caller) ==
      if caller.None? then Abstain else if caller.value == path[1] then Grant else Refuse
  {
    UserPatternMatch(path);
  }

  /** A path under `users/` other than `GET /users/exists` is selected by
      neither of the first two rules. */
  lemma OwnerPathSkipsFirstRules(m: Method, path: Path, caller: Caller)
    requires |path| >= 2 && path[0] == "users"
    requires !(m == GET && path == ["users", "exists"])
    ensures RuleVerdict(ExistsRule, m, path, caller) == Abstain
    ensures RuleVerdict(SessionRule, m, path, caller) == Abstain
  {
    assert !Fits(SessionPattern, path);
  }

  /** The ownership decision on a path under `users/`, stated on the path
      itself: allowed iff the caller's name is the second segment. */
  lemma OwnerPathDecision(m: Method, path: Path, caller: Caller)
    requires |path| >= 2 && path[0] == "users"
    requires !(m == GET && path == ["users", "exists"])
    ensures Decide(SecurityRules, m, path, caller) == Allow <==> caller == Some(path[1])
    ensures Decide(SecurityRules, m, path, caller) != Error
  {
    OwnerPathSkipsFirstRules(m, path, caller);
    OwnerRuleVerdict(m, path, caller);
    AnyRuleVerdict(m, path, caller);
    DecideSecurityRules(m, path, caller);
  }

  /** A request to `users/<u>/...` (other than `GET /users/exists`) is
      allowed iff the caller is authenticated under the name `u`. Without an
      authentication the ownership check gives no decision and the catch-all
      rule denies. */
  lemma OwnerPathNeedsMatchingName(m: Method, u: string, rest: Path, caller: Caller)
    requires !(m == GET && u == "exists" && rest == [])
    ensures Decide(SecurityRules, m, ["users", u] + rest, caller) == Allow <==> caller == Some(u)
    ensures Decide(SecurityRules, m, ["users", u] + rest, caller) != Error
  {
    var path := ["users", u] + rest;
    assert path[0] == "users" && path[1] == u && |path| >= 2;
    assert path == ["users", "exists"] ==> u == "exists" && rest == [] by {
      if path == ["users", "exists"] {
        assert rest == path[2..];
      }
    }
    OwnerPathDecision(m, path, caller);
  }

  /** A request none of the first three rules selects is allowed iff there
      is an authentication: the catch-all denies every anonymous caller. */
  lemma UnlistedPathNeedsAuthentication(m: Method, path: Path, caller: Caller)
    requires !Selects(ExistsRule, m, path) && !Selects(SessionRule, m, path) && !Selects(OwnerRule, m, path)
    ensures Decide(SecurityRules, m, path, caller) == Allow <==> caller.Some?
    ensures Decide(SecurityRules, m, path, caller) != Error
  {
    AnyRuleVerdict(m, path, caller);
    DecideSecurityRules(m, path, caller);
  }

  /** The configured table never fails: every variable the ownership check
      reads is bound by its pattern. */
  lemma SecurityRulesNeverFail(m: Method, path: Path, caller: Caller)
    ensures Decide(SecurityRules, m, path, caller) != Error
  {
    UserPatternMatch(path);
    AnyRuleVerdict(m, path, caller);
    DecideSecurityRules(m, path, caller);
  }
}
