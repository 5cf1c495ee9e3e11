/** Failure-carrying values shared by the service and the handler. */
module Wrappers {

  /** An optional value: a nil result or a nil error in Go becomes None. */
  datatype Option<+T> = None | Some(value: T)

  /** A value or an error, for Go's `(value, error)` return pairs. */
  datatype Result<+T, +E> = Success(value: T) | Failure(error: E)
}
