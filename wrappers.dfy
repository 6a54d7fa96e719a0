/** Option and Result values for the places where the source returns null or throws. */
module Wrappers {

  datatype Option<+T> = None | Some(value: T)

  /** Either a value, or the error the source would have thrown. */
  datatype Result<+T, +E> = Ok(value: T) | Err(error: E)
}
