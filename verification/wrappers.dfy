/** Failure-carrying return values, standing in for Go's `(value, error)` and `(value, ok)` pairs. */
module Wrappers {

  /** A value that may be missing, like Go's `(v, true)` / `("", false)`. */
  datatype Option<+T> = None | Some(value: T)

  /** A value or an error, like Go's `(v, nil)` / `(zero, err)`. */
  datatype Result<+R, +E> = Success(value: R) | Failure(error: E)

  /** An operation with no value that may fail, like a Go function returning only `error`. */
  datatype Outcome<+E> = Pass | Fail(error: E)
}
