/** Failure-carrying return values, standing in for the exceptions the C# code throws. */
module Wrappers {

  /** Either a value or nothing, standing in for a nullable reference. */
  datatype Option<+T> = None | Some(value: T)

  /** Either a value or the error that would have been thrown instead. */
  datatype Result<+T, +E> = Success(value: T) | Failure(error: E)
}
