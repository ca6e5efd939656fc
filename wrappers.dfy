/** Optional values and results with an error, standing in for Go's nil pointers and
    (value, error) returns. */
module Wrappers {

  /** A value that may be absent (a Go pointer that may be nil). */
  datatype Option<+T> = None | Some(value: T)

  /** A value or an error (a Go `(value, error)` pair where exactly one is meaningful). */
  datatype Result<+R, +E> = Success(value: R) | Failure(error: E)
}
