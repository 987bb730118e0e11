/** Failure-carrying result types shared by the detection pipeline and the monitor loop. */
module Wrappers {

  /** Either a value or `None`. */
  datatype Option<+T> = None | Some(value: T)

  /** Either a successful value or the error that stopped the computation. */
  datatype Result<+R, +E> = Success(value: R) | Failure(error: E)
}
