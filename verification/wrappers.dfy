/** Failure-compatible wrappers shared by every module of the model. */
module Wrappers {

  /** A value that may be absent: Python's `None` or a present value. */
  datatype Option<+T> = None | Some(value: T)

  /** The outcome of an operation that either yields a value or raises. */
  datatype Result<+T, +E> = Success(value: T) | Failure(error: E)
}
