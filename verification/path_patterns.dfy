// A small segment-based path matcher, standing in for the path patterns the
// security configuration uses (`/users/exists`, `/session`, `/users/{user}/**`).
//
// A request path is given already split at '/' into its segments. A pattern
// is a sequence of literal segments and `{name}` variables, optionally
// followed by a trailing `**` that absorbs zero or more further segments.
// A variable binds exactly one segment.
module PathPatterns {
  import opened Options

  type Path = seq<string>

  /** Path variables extracted by a successful match, by name. */
  type Bindings = map<string, string>

  datatype Segment = Literal(text: string) | Variable(name: string)

  datatype Pattern = Pattern(segments: seq<Segment>, anyTail: bool)

  /** Declarative meaning of a match: the path is exactly as long as the
      pattern's segments (at least as long with a trailing `**`), and every
      literal segment equals the path segment at its position. */
  predicate Fits(p: Pattern, path: Path)
  {
    && (if p.anyTail then |p.segments| <= |path| else |p.segments| == |path|)
    && forall i :: 0 <= i < |p.segments| && p.segments[i].Literal? ==> path[i] == p.segments[i].text
  }

  /** Pattern with its first segment removed. */
  function Rest(p: Pattern): Pattern
    requires p.segments != []
  {
    Pattern(p.segments[1..], p.anyTail)
  }

  /** Matches `path` against `p`, returning the variable bindings on success.
      Every variable of the pattern is bound, and every binding comes from a
      variable of the pattern, to the segment at that variable's position. */
  function Match(p: Pattern, path: Path): (r: Option<Bindings>)
    ensures r.Some? <==> Fits(p, path)
    ensures r.Some? ==>
      forall i :: 0 <= i < |p.segments| && p.segments[i].Variable? ==> p.segments[i].name in r.value
    ensures r.Some? ==>
      forall v :: v in r.value ==>
        exists i :: 0 <= i < |p.segments| && i < |path| && p.segments[i] == Variable(v) && r.value[v] == path[i]
    decreases |p.segments|
  {
    if p.segments == [] then
      if path == [] || p.anyTail then Some(map[]) else None
    else if path == [] then
      None
    else
      match p.segments[0]
      case Literal(text) =>
        if path[0] == text then Match(Rest(p), path[1..]) else None
      case Variable(name) =>
        match Match(Rest(p), path[1..])
        case None => None
        case Some(b) =>
          BindVariable(p, path, b);
          Some(b[name := path[0]])
  }

  /** The binding step of a match: binding a leading variable to the first
      path segment extends bindings of the rest of the pattern to bindings of
      the whole pattern, every one still coming from a variable at its
      position. */
  lemma BindVariable(p: Pattern, path: Path, b: Bindings)
    requires p.segments != [] && path != [] && p.segments[0].Variable?
    requires forall v :: v in b ==>
      exists i :: 0 <= i < |Rest(p).segments| && i < |path[1..]| && Rest(p).segments[i] == Variable(v) && b[v] == path[1..][i]
    ensures var r := b[p.segments[0].name := path[0]];
      forall v :: v in r ==>
        exists i :: 0 <= i < |p.segments| && i < |path| && p.segments[i] == Variable(v) && r[v] == path[i]
  {
    var r := b[p.segments[0].name := path[0]];
    forall v | v in r
      ensures exists i :: 0 <= i < |p.segments| && i < |path| && p.segments[i] == Variable(v) && r[v] == path[i]
    {
      if v == p.segments[0].name {
        assert p.segments[0] == Variable(v) && r[v] == path[0];
      } else {
        var j :| 0 <= j < |Rest(p).segments| && j < |path[1..]| && Rest(p).segments[j] == Variable(v) && b[v] == path[1..][j];
        assert p.segments[j + 1] == Variable(v) && r[v] == path[j + 1];
      }
    }
  }


}
