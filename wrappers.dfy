/** Failure-carrying result types shared by every module of the model. */
module Wrappers {

  /** A value that may be missing: a SQL NULL, a Python None, an absent row. */
  datatype Option<+T> = None | Some(value: T)

  /** The outcome of an operation that either returns a value or raises. */
  datatype Result<+T, +E> = Ok(value: T) | Err(error: E)
}
