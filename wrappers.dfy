/**
 * The two Python exceptions the operations raise, and the result and
 * optional-value shapes used to return them.
 */
module Wrappers {
  datatype Exception = ValueError | IndexError

  /** A value, or the exception the Python function raises instead. */
  datatype Result<T> = Ok(value: T) | Err(error: Exception)

  /** Python's `Optional[...]`: `None` or a value. */
  datatype Option<T> = None | Some(value: T)
}
