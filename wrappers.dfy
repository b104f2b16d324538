/** Failure-compatible result values used in place of Python's `None` results and exceptions. */
module Wrappers {

  /** A value that may be absent: Python's `None` or a missing dictionary key. */
  datatype Option<+T> = None | Some(value: T)

  /** The value of an operation that returns something or raises. */
  datatype Result<+T, +E> = Success(value: T) | Failure(error: E)

  /** The value of an operation that returns nothing or raises. */
  datatype Outcome<+E> = Pass | Fail(error: E)
}
