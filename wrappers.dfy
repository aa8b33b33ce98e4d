/** Optional values and results with an error, shared by the other modules. */
module Wrappers {

  /** A value that may be absent: the model's stand-in for a null reference. */
  datatype Option<+T> = None | Some(value: T)

  /** The outcome of an operation that may raise an exception. */
  datatype Result<+T, +E> = Ok(value: T) | Err(error: E)
}
