/** The Option and Result datatypes used throughout the model. */
module Wrappers {

  /** An optional value: a JavaScript property that may be `undefined`. */
  datatype Option<+T> = None | Some(value: T)

  /** A computation that either yields a value or stops with an error. */
  datatype Result<+R, +E> = Success(value: R) | Failure(error: E)
}
