/** Failure-carrying values standing for Go's `(T, error)` and `error` returns. */
module Wrappers {

  datatype Option<+T> = None | Some(value: T)

  /** A value or the error that replaced it. */
  datatype Result<+R, +E> = Success(value: R) | Failure(error: E)

  /** A call that returns only an `error`: `Pass` is a nil error. */
  datatype Outcome<+E> = Pass | Fail(error: E)
}
