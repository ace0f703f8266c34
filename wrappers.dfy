/** Failure-compatible wrappers used by the detection model. */
module Wrappers {

  /** A value that may be absent (PHP's `null`). */
  datatype Option<+T> = None | Some(value: T)

  /** The outcome of an operation that may throw. */
  datatype Result<+R, +E> = Success(value: R) | Failure(error: E)
}
