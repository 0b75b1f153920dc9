/** Option and Result values used for the source's None and for its exceptions. */
module Wrappers {

  datatype Option<+T> = None | Some(value: T)

  /** A computation that either produces a value or fails with an error, as a raised exception does. */
  datatype Result<+T, +E> = Ok(value: T) | Err(error: E)
}
