/** Optional values and results with an error value, shared by every module
    of the model. */
module Wrappers {

  /** A value that may be missing: Python's `None`, or a C pointer that may be NULL. */
  datatype Option<+T> = None | Some(value: T)

  /** The outcome of an operation that either succeeds with a value or stops
      with an error (a raised exception, or a failed C assertion). */
  datatype Result<+T, +E> = Success(value: T) | Failure(error: E)
}
