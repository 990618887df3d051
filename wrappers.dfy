/** Option, pass/fail and success/failure values used in place of Python's
    `None` and of the `ValidationError` exceptions the catalog raises. */
module Wrappers {

  datatype Option<+T> = None | Some(value: T)

  /** The outcome of a validator that returns nothing on success and raises on failure. */
  datatype Outcome<+E> = Pass | Fail(error: E)

  /** The outcome of an operation that yields a value on success. */
  datatype Result<+T, +E> = Ok(value: T) | Err(error: E)
}
