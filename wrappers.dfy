/** Optional values and results that carry either a value or an error. */
module Wrappers {

  /** A value that may be absent (Python's `None`). */
  datatype Option<+T> = None | Some(value: T)

  /** The outcome of an operation that either returns a value or raises an error. */
  datatype Result<+T, +E> = Success(value: T) | Failure(error: E)
}
