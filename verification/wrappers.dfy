/** Failure-carrying values used throughout the model. */
module Wrappers {

  /** A value that may be absent (JavaScript's `undefined`). */
  datatype Option<+T> = None | Some(value: T)

  /** The outcome of a filesystem call: a new value, or the error the call throws. */
  datatype Result<+T, +E> = Ok(value: T) | Err(error: E)
}
