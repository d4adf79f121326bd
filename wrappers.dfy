/** The Option datatype used across the model for Python's `None`-or-value results. */
module Wrappers {

  datatype Option<+T> = None | Some(value: T)

  /** A typed failure, for operations that raise in the source. */
  datatype Result<+T, +E> = Ok(value: T) | Err(error: E)
}
