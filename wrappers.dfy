/** Failure-carrying result types used across the model. */
module Wrappers {

  /** A value that may be missing; `None` stands for a Python call that raised. */
  datatype Option<+T> = None | Some(value: T)

  /** A value or the error that aborted the computation. */
  datatype Result<+T, +E> = Success(value: T) | Failure(error: E)
}
