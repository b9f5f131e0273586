/** Option and Result, the failure-carrying values used throughout the model. */
module Wrappers {

  /** A value that may be absent (the source's `null`, or a failed lookup). */
  datatype Option<+T> = None | Some(value: T)

  /** The outcome of an operation that can throw: a value, or the error that aborts it. */
  datatype Result<+R, +E> = Success(value: R) | Failure(error: E)
}
