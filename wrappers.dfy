/** Failure-compatible wrappers shared by the models of utils.js. */
module Wrappers {

  /** A value that may be missing: JSON.parse's result (None when it throws). */
  datatype Option<+T> = None | Some(value: T)

  /** The result of an operation that may throw, with the thrown message. */
  datatype Result<+T, +E> = Ok(value: T) | Err(error: E)

  /** The result of an operation that returns nothing but may throw. */
  datatype Outcome<+E> = Pass | Fail(error: E)
}
