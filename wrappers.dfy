/** Failure-carrying results used across the model. */
module Wrappers {

  /** A value that may be absent: PHP's implicit `null` return. */
  datatype Option<+T> = None | Some(value: T)

  /** Either a value or the error that was thrown instead of producing it. */
  datatype Result<+T, +E> = Success(value: T) | Failure(error: E)
}
