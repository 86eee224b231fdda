/** The optional-value datatype shared by every module of the model. */
module Options {

  /** A value that may be absent: an empty reactive result, a missing
      query parameter, an unknown key. Read as a reactive single-value
      publisher, `None` is one that completes without emitting. */
  datatype Option<+T> = None | Some(value: T)

  /** Reactive `flatMap`: continues with `f` of the emitted value; a
      publisher that emits nothing stays empty and `f` never runs. */
  function FlatMap<T, U>(o: Option<T>, f: T -> Option<U>): (r: Option<U>)
    ensures o.None? ==> r.None?
    ensures o.Some? ==> r == f(o.value)
  {
    match o
    case None => None
    case Some(v) => f(v)
  }

  /** Reactive `then`: once `o` completes, with or without a value,
      continues with `next`. */
  function Then<T, U>(o: Option<T>, next: Option<U>): (r: Option<U>)
    ensures r == next
  {
    next
  }
}
