/** Failure-carrying datatypes used throughout the model. */
module Wrappers {

  /** A value that may be missing (PHP's `null` from `??` or an undefined key). */
  datatype Option<+T> = None | Some(value: T)

  /** Either a result or the error that PHP would have thrown instead. */
  datatype Result<+T, +E> = Success(value: T) | Failure(error: E)
}
