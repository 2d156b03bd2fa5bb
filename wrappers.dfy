/** The success-or-failure values that stand in for the script's exceptions. */
module Wrappers {

  /** A value that may be absent: a conversion or a pattern match that failed. */
  datatype Option<+T> = None | Some(value: T)

  /** A value or the reason it could not be produced. */
  datatype Result<+R, +E> = Success(value: R) | Failure(error: E)
}
