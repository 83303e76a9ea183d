/** Option and Result: Python's `None` returns and raised exceptions as values. */
module Wrappers {

  /** A value that may be absent (Python's `None`). */
  datatype Option<+T> = None | Some(value: T)

  /** Either a value or the exception the source raises instead. */
  datatype Result<+T, +E> = Success(value: T) | Failure(error: E)

  /** Exceptions raised by the modelled code. */
  datatype Error = ValueError(message: string)
}
