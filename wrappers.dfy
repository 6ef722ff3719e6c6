/** Failure-carrying values used across the model. */
module Wrappers {

  /** A value that may be absent; stands for a nullable field (`null`). */
  datatype Option<+T> = None | Some(value: T)

  /** The outcome of a computation that either yields a value or fails. */
  datatype Result<+R, +E> = Success(value: R) | Failure(error: E)

  /** The outcome of a step that only succeeds or fails. */
  datatype Outcome<+E> = Pass | Fail(error: E)
}
