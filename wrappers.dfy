/** Option, Result and Outcome: the model's stand-ins for Python's None and exceptions. */
module Wrappers {

  datatype Option<+T> = None | Some(value: T)

  /** A value, or the exception raised instead of returning it. */
  datatype Result<+T, +E> = Ok(value: T) | Err(error: E)

  /** Normal completion of a procedure without a value, or the exception it raised. */
  datatype Outcome<+E> = Pass | Fail(error: E)
}
