/** Failure-carrying results: Go's `error` return values and `(value, error)` pairs. */
module Wrappers {

  /** `None` stands for Go's `nil` error. */
  datatype Option<+T> = None | Some(value: T)

  /** A value or the error that replaced it. */
  datatype Result<+T, +E> = Success(value: T) | Failure(error: E)
}
