/** The two failure-carrying datatypes the model uses in place of Python's
    `None` returns and raised exceptions. */
module Wrappers {

  /** A value that may be missing (Python's `None`). */
  datatype Option<+T> = None | Some(value: T)

  /** Either a value or the error that the Python code would raise. */
  datatype Result<+T, +E> = Ok(value: T) | Err(error: E)
}
