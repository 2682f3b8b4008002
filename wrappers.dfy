/** Option and Result, the two ways the modelled code signals absence and failure. */
module Wrappers {

  /** `None` stands for Python's `None` (or a call that produced nothing). */
  datatype Option<+T> = None | Some(value: T)

  /** `Failure` stands for an exception or an HTTP error response. */
  datatype Result<+R, +E> = Success(value: R) | Failure(error: E)
}
