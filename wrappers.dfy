/** Failure-carrying results shared by the codec and the set algebra. */
module Wrappers {

  datatype Option<+T> = None | Some(value: T)

  /** A computation that either yields a value or raises the error `error`. */
  datatype Result<+T, +E> = Ok(value: T) | Err(error: E)
}
