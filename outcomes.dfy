/** Option and Result values used for the outcomes of the storage operations. */
module Outcomes {

  datatype Option<+T> = None | Some(value: T)

  /** The (value, error) pair a Go function returns, as one value. */
  datatype Result<+T, +E> = Ok(value: T) | Err(error: E)
}
