/** Failure-carrying wrappers shared by the framing and loader models. */
module Wrappers {

  /** A value that may be absent. */
  datatype Option<+T> = None | Some(value: T)

  /** Either a value or the error the original code would raise instead. */
  datatype Result<+T, +E> = Success(value: T) | Failure(error: E)
}
