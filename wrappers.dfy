/** Option and Result values used where the upgrader returns "nothing" or fails. */
module Wrappers {

  datatype Option<+T> = None | Some(value: T)

  /** The outcome of an operation that can fail with an error value. */
  datatype Result<+R, +E> = Ok(value: R) | Err(error: E)
}
