/** Failure-compatible wrappers shared by the model's modules. */
module Wrappers {

  /** A value that may be absent: a Python `None` or a NULL map lookup. */
  datatype Option<+T> = None | Some(value: T)

  /** An outcome that is either a value or the exception the source raises. */
  datatype Result<+T, +E> = Ok(value: T) | Err(error: E)
}
