/** The shared Option, Result and Outcome datatypes. */
module Wrappers {

  datatype Option<+T> = None | Some(value: T)

  /** The value of an operation that either succeeds with `value` or fails with `error`. */
  datatype Result<+T, +E> = Ok(value: T) | Err(error: E)

  /** An operation that either completes or fails with `error`, with no value. */
  datatype Outcome<+E> = Pass | Fail(error: E)
}
