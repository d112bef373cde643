/** Option and Result values standing in for Go's `(value, error)` returns. */
module Results {

  datatype Option<+T> = None | Some(value: T)

  /** The outcome of a Go call returning `(T, error)`: a value when the error is nil. */
  datatype Result<+T, +E> = Success(value: T) | Failure(error: E)

  /** The outcome of a Go call returning only `error`. */
  datatype Outcome<+E> = Pass | Fail(error: E)
}
