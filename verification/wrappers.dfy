/** Result types for absent values and raised errors. */
module Wrappers {

  /** A value that may be absent (a C# null or a failed TryParse). */
  datatype Option<+T> = None | Some(value: T)

  /** Either a value or the error that was raised instead of producing it. */
  datatype Result<+R, +E> = Success(value: R) | Failure(error: E)
}
