/** Option and Result, the failure-carrying values used throughout the model. */
module Wrappers {

  datatype Option<+T> = None | Some(value: T)

  /** A computation that either yields a value or fails with an error (an exception of the source). */
  datatype Result<+T, +E> = Ok(value: T) | Err(error: E)
}
