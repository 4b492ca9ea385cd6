/** Option and Result, the two failure-carrying shapes the pipeline needs. */
module Wrappers {

  /** Python's `None` or a present value. */
  datatype Option<+T> = None | Some(value: T)

  /** A value, or the message that `str(e)` of the raised exception gives. */
  datatype Result<+R, +E> = Success(value: R) | Failure(error: E)
}
