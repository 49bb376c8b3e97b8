/** Option and Result/Outcome wrappers used for the engine's error paths. */
module Wrappers {

  datatype Option<+T> = None | Some(value: T)

  /** Either a value or the error that stopped the computation. */
  datatype Result<+R, +E> = Success(value: R) | Failure(error: E)

  /** The outcome of an operation that only changes state: it passes, or fails with an error. */
  datatype Outcome<+E> = Pass | Fail(error: E)
}
