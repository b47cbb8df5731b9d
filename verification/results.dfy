/** Optional values and success-or-error outcomes; `Result` supports the `:-` operator. */
module Results {

  /** A value that may be missing, such as the row a query did not find. */
  datatype Option<+T> = None | Some(value: T)

  /** The outcome of a step that either succeeds with a value or fails with an error. */
  datatype Result<+T, +E> = Ok(value: T) | Err(error: E) {

    predicate IsFailure() {
      Err?
    }

    function PropagateFailure<U>(): Result<U, E>
      requires Err?
    {
      Err(error)
    }

    function Extract(): T
      requires Ok?
    {
      value
    }
  }
}
