/** Failure-compatible wrappers shared by the whole model: `Option` for the
    lookups of a `ValueMap`, `Result` for every operation that can fail. */
module Results {

  /** A possibly absent value; `get` and `values` return one. */
  datatype Option<+T> = None | Some(value: T)

  /** The outcome of a fallible operation: a value or an error. Usable with `:-`. */
  datatype Result<+T, +E> = Ok(value: T) | Err(error: E) {

    predicate IsFailure() {
      Err?
    }

    function PropagateFailure<U>(): Result<U, E>
      requires Err?
    {
      Err(error)
    }

    function Extract(): T
      requires Ok?
    {
      value
    }
  }
}
