/** Failure-carrying results used by every validator of the model. */
module Wrappers {

  /** A value that may be missing: Python's `None` versus a present value. */
  datatype Option<+T> = None | Some(value: T)

  /** The outcome of a validator: the validated value, or the raised error. */
  datatype Result<+T, +E> = Success(value: T) | Failure(error: E)
}
