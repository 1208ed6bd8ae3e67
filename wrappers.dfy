/** Option, Result and Outcome: the error paths of the model. */
module Wrappers {

  datatype Option<+T> = None | Some(value: T)

  /** The value of an operation that may throw. */
  datatype Result<+R, +E> = Success(value: R) | Failure(error: E)

  /** The value of an operation that returns nothing but may throw. */
  datatype Outcome<+E> = Pass | Fail(error: E)
}
