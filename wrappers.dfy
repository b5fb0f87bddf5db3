/** Failure-carrying wrappers used across the model. */
module Wrappers {

  datatype Option<+T> = None | Some(value: T)

  /** The outcome of a step that either produces a value or reports an error message. */
  datatype Result<+R, +E> = Success(value: R) | Failure(error: E)
}
