// The session store: opaque session ids (carried in a request header) bound
// to the principal whose security context the session holds.
module Sessions {
  import opened Options
  import opened Users

  type Token = string

  type Store = map<Token, Principal>

  /** The principal of the session a request presents, or nothing when the
      request carries no id or an id with no live session (anonymous). */
  function Resolve(store: Store, token: Option<Token>): (r: Option<Principal>)
    ensures r.Some? <==> token.Some? && token.value in store
    ensures r.Some? ==> r.value == store[token.value]
  {
    if token.Some? && token.value in store then Some(store[token.value]) else None
  }

  /** Binds a fresh id to a principal once it has authenticated. Ids are
      issued by the session collaborator, which never hands out a live one. */
  function Open(store: Store, token: Token, p: Principal): (s: Store)
    requires token !in store
    ensures s.Keys == store.Keys + {token}
    ensures forall t :: t in store ==> s[t] == store[t]
  {
    store[token := p]
  }

  /** Ends the session `token`, reporting whether it was live. Every other
      session is left as it was. */
  function Invalidate(store: Store, token: Token): (r: (Store, bool))
    ensures r.1 <==> token in store
    ensures r.0.Keys == store.Keys - {token}
    ensures forall t :: t in r.0 ==> r.0[t] == store[t]
  {
    (store - {token}, token in store)
  }

  /** A session opened for a principal resolves to exactly that principal. */
  lemma OpenThenResolve(store: Store, token: Token, p: Principal)
    requires token !in store
    ensures Resolve(Open(store, token, p), Some(token)) == Some(p)
  {
  }

  /** After invalidation the id no longer resolves; other ids resolve as
      before. */
  lemma InvalidateThenResolve(store: Store, token: Token, other: Option<Token>)
    requires other != Some(token)
    ensures Resolve(Invalidate(store, token).0, Some(token)).None?
    ensures Resolve(Invalidate(store, token).0, other) == Resolve(store, other)
  {
  }

  /** Invalidating a live session twice reports true, then false, and the
      second call changes nothing. */
  lemma InvalidateTwice(store: Store, token: Token)
    requires token in store
    ensures Invalidate(store, token).1
    ensures !Invalidate(Invalidate(store, token).0, token).1
    ensures Invalidate(Invalidate(store, token).0, token).0 == Invalidate(store, token).0
  {
  }
}
