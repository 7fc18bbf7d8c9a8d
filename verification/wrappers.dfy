/** Failure-carrying result types shared by every module of the model. */
module Wrappers {

  /** A value that may be absent: PHP's `null`, a regex that did not match. */
  datatype Option<+T> = None | Some(value: T)

  /** The outcome of an operation that the source ends by throwing. */
  datatype Result<+T, +E> = Ok(value: T) | Err(error: E)
}
