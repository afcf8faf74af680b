/** Failure-compatible result types used by the block triangularization model. */
module Wrappers {

  datatype Option<+T> = None | Some(value: T)

  /** Either the value a call returns or the exception it raises. */
  datatype Result<+R, +E> = Success(value: R) | Failure(error: E)
}
