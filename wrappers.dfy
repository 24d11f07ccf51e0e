/** Option and Result, the failure-carrying values used throughout the model. */
module Wrappers {

  /** A JavaScript value that may be `undefined` (None) or present (Some). */
  datatype Option<+T> = None | Some(value: T)

  /** The outcome of an operation that, in the source, may throw. */
  datatype Result<+R, +E> = Ok(value: R) | Err(error: E)
}
