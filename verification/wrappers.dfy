/** Failure-carrying datatypes returned by the parsers and the certificate store. */
module Wrappers {

  /** A value that may be absent: a NULL pointer or a "not found" lookup. */
  datatype Option<+T> = None | Some(value: T)

  /** The outcome of an operation that reports why it failed. */
  datatype Result<+T, +E> = Ok(value: T) | Err(error: E)
}
