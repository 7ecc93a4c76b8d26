/** Option and Result values shared by the modules of this model. */
module Wrappers {

  /** A value that may be absent (JavaScript's `undefined` or `null`). */
  datatype Option<+T> = None | Some(value: T)

  /** Either a value, or the message of an exception the JavaScript code throws. */
  datatype Result<+T, +E> = Success(value: T) | Failure(error: E)
}
