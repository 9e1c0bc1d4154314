// A value that may be missing, shared by the models.

module Wrappers {
  datatype Option<T> = None | Some(value: T)

  // What an option adds to a list of results.
  function Emit<T>(o: Option<T>): seq<T> {
    match o
    case None => []
    case Some(x) => [x]
  }

  lemma EmitIs<T>(o: Option<T>)
    ensures Emit(o) == if o.Some? then [o.value] else []
  {}
}
