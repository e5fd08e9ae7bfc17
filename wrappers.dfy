/** Option and Result, standing for Python's `None` checks and raised exceptions. */
module Wrappers {

  datatype Option<+T> = None | Some(value: T)

  /** The outcome of an operation that may raise: a value, or the error raised. */
  datatype Result<+T, +E> = Success(value: T) | Failure(error: E)
}
