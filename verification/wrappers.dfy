/** Failure-carrying results used where the source throws or returns null. */
module Wrappers {

  /** A value that may be missing, in place of a null reference. */
  datatype Option<+T> = None | Some(value: T)

  /** Either a value or the message of the exception the source would throw. */
  datatype Result<+T> = Success(value: T) | Failure(error: string)
}
