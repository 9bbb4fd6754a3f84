/** Failure-compatible wrappers used across the model. */
module Wrappers {

  datatype Option<+T> = None | Some(value: T)

  /** Either a value or the reason a computation stopped. */
  datatype Result<+T, +E> = Success(value: T) | Failure(error: E)
}
