/** Option and Result datatypes used throughout the list model. */
module Wrappers {

  /** A value that may be absent, standing in for PHP's nullable types. */
  datatype Option<+T> = None | Some(value: T)

  /** The outcome of an operation that either succeeds or throws. */
  datatype Result<+T, +E> = Ok(value: T) | Err(error: E)
}
