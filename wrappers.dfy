/** Option and result types shared by the other modules. */
module Wrappers {

  /** A value that may be absent (JavaScript's `undefined`, or NaN for a number). */
  datatype Option<+T> = None | Some(value: T)

  /** The outcome of a step that may throw: the value, or the text that identifies the failure. */
  datatype Result<+R, +E> = Success(value: R) | Failure(error: E)
}
