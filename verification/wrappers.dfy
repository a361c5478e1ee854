/** Option and Result values used for "not found" outcomes and raised errors. */
module Wrappers {

  /** Python's `None` versus a value. */
  datatype Option<+T> = None | Some(value: T)

  /** A returned value versus a raised error. */
  datatype Result<+R, +E> = Success(value: R) | Failure(error: E)
}
