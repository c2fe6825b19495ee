/** Optional values and success/failure results used throughout the model. */
module Wrappers {

  /** A value that may be absent (JavaScript `null`/`undefined` where only presence matters). */
  datatype Option<+T> = None | Some(value: T)

  /** The outcome of an operation whose callback receives either an error or a result. */
  datatype Result<+T, +E> = Success(value: T) | Failure(error: E)
}
