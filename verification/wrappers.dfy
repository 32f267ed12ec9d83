/** Failure-carrying results, used in place of the exceptions the recorder raises. */
module Wrappers {

  /** Either a value or the error that stopped the computation. */
  datatype Result<+T, +E> = Success(value: T) | Failure(error: E)

  /** Either a value or nothing. */
  datatype Option<+T> = None | Some(value: T)
}
