/** Failure-carrying value types shared by the router model. */
module Wrappers {

  /** A value that may be absent: Go's nil slot, or "no dial happened". */
  datatype Option<+T> = None | Some(value: T)

  /** A value or an error: Go's `(T, error)` return pair. */
  datatype Result<+T, +E> = Success(value: T) | Failure(error: E)

  /** Success or an error, with no value: Go's bare `error` return. */
  datatype Outcome<+E> = Pass | Fail(error: E)
}
