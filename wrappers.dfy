/** Failure-compatible wrappers shared by the other modules. */
module Wrappers {

  /** A value that may be absent: Python's `None` or a present value. */
  datatype Option<+T> = None | Some(value: T)

  /** The outcome of an operation that can fail with an error: a value, or the exception raised. */
  datatype Result<+T, +E> = Success(value: T) | Failure(error: E)
}
