/** Option and Result values, used where the program returns None or shows an error. */
module Wrappers {

  /** A value that may be missing: Python's `None` or a value. */
  datatype Option<+T> = None | Some(value: T)

  /** The outcome of an operation that stops early with a message. */
  datatype Result<+R, +E> = Success(value: R) | Failure(error: E)
}
