/** Failure-carrying values shared by every module of the model. */
module Wrappers {

  /** A value that may be missing. */
  datatype Option<+T> = None | Some(value: T)

  /** The outcome of an operation that either succeeds or raises/rejects with an error. */
  datatype Result<+T, +E> = Ok(value: T) | Err(error: E)
}
