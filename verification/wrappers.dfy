/** Failure-compatible wrappers shared by the whole model. */
module Wrappers {

  /** A value that may be missing (an absent property, a NaN parse). */
  datatype Option<+T> = None | Some(value: T)

  /** The outcome of a call that may throw, or of a promise: `Success` is a
      normal return / resolution, `Failure` a throw / rejection. */
  datatype Result<+T, +E> = Success(value: T) | Failure(error: E)
}
