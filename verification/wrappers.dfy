/** Failure-carrying datatypes used for the error paths of the index engine. */
module Wrappers {

  /** A value that may be missing (Python's `None`). */
  datatype Option<+T> = None | Some(value: T)

  /** The outcome of an operation that can raise: `Ok` with a value, or `Err` with the error. */
  datatype Result<+T, +E> = Ok(value: T) | Err(error: E)
}
