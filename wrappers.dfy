/** Option and Result, used for values that may be missing and for Python exceptions. */
module Wrappers {

  /** A value that may be absent (a parse that failed). */
  datatype Option<+T> = None | Some(value: T)

  /** Either the value an operation returns, or the exception it raises instead. */
  datatype Result<+T, +E> = Ok(value: T) | Err(error: E)
}
