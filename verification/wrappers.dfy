/** Option and Result: the model's stand-ins for Java's null and for thrown exceptions. */
module Wrappers {

  /** `None` plays the role of a null reference or of "not found". */
  datatype Option<+T> = None | Some(value: T)

  /** `Failure(e)` plays the role of an exception thrown before any state changed. */
  datatype Result<+R, +E> = Success(value: R) | Failure(error: E)
}
