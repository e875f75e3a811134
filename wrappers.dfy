/** Optional values and results with an error, used for nullable fields and thrown errors. */
module Wrappers {

  datatype Option<+T> = None | Some(value: T)

  /** A call that either returned a value or threw an error. */
  datatype Result<+T, +E> = Ok(value: T) | Err(error: E)
}
