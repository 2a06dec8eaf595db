/** Option and Result datatypes used across the model. */
module Wrappers {

  datatype Option<+T> = None | Some(value: T)

  /** The outcome of a call that may raise: a value, or the exception's message. */
  datatype Result<+T, +E> = Success(value: T) | Failure(error: E)
}
