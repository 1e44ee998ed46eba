/** Option and Result values used across the model. */
module Wrappers {

  /** A value that may be absent: JavaScript's `undefined` on a property or lookup. */
  datatype Option<+T> = None | Some(value: T)

  /** The outcome of an operation that may throw. */
  datatype Result<+T, +E> = Ok(value: T) | Err(error: E)
}
