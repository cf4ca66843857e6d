/** Optional values and outcomes that may carry an error. `get_comic` panics
    on every failed step; here each such step yields an `Err`, and `:-`
    passes it on to the caller. */
module Results {

  datatype Option<+T> = None | Some(value: T)

  datatype Result<+T, +E> = Ok(value: T) | Err(error: E) {

    predicate IsFailure() {
      Err?
    }

    function PropagateFailure<U>(): Result<U, E>
      requires Err?
    {
      Err(error)
    }

    function Extract(): T
      requires Ok?
    {
      value
    }
  }

  /** Turns a missing value into the given error, as `expect`/`unwrap` do. */
  function Require<T, E>(o: Option<T>, error: E): (r: Result<T, E>)
    ensures r.Ok? <==> o.Some?
    ensures r.Ok? ==> r.value == o.value
    ensures r.Err? ==> r.error == error
  {
    match o
    case Some(v) => Ok(v)
    case None => Err(error)
  }
}
