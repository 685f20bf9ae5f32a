/** Failure-carrying result types: the source signals errors by throwing, the model returns them. */
module Wrappers {

  datatype Option<+T> = None | Some(value: T)

  /** A value or an error message. */
  datatype Result<+T, +E> = Ok(value: T) | Err(error: E)

  /** Success without a value, or an error. */
  datatype Outcome<+E> = Pass | Fail(error: E)
}
