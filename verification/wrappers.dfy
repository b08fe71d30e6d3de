/** Failure-carrying datatypes used across the model in place of Python's
    `None` and raised exceptions. */
module Wrappers {

  /** Python's `Optional[T]`. */
  datatype Option<+T> = None | Some(value: T)

  /** A value, or the exception the operation raised instead. */
  datatype Result<+T, +E> = Ok(value: T) | Err(error: E)

  /** An operation that returns nothing, or the exception it raised. */
  datatype Outcome<+E> = Pass | Fail(error: E)
}
