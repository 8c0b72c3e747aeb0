/** Option and Result values used for the error paths of the model. */
module Wrappers {

  /** A value that may be absent: a markup node or attribute that was not found. */
  datatype Option<+T> = None | Some(value: T)

  /** The outcome of an operation that the source lets raise an exception. */
  datatype Result<+T, +E> = Ok(value: T) | Err(error: E)
}
