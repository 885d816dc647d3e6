/** Absence and failure values shared by the other modules. */
module Wrappers {

  /** A value that may be missing: Go's nil interface becomes None. */
  datatype Option<+T> = None | Some(value: T)

  /** The outcome of a fallible step: a value, or the error text it failed with. */
  datatype Result<+T, +E> = Ok(value: T) | Err(error: E)
}
