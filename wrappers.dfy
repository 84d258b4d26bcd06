/** Option and Result: a null cell of a table, and a call that raises. */
module Wrappers {

  /** A table cell that may be null (pandas NaN / NA). */
  datatype Option<+T> = None | Some(value: T)

  /** The value a call returns, or the exception it raises instead. */
  datatype Result<+T, +E> = Success(value: T) | Failure(error: E)
}
