/** Result types that stand for the null references and the exceptions of the game state. */
module Wrappers {

  /** A value or nothing: the model of a Java reference that may be null. */
  datatype Option<+T> = None | Some(value: T)

  /** Success, or failure with an error value: the model of a void method that may throw. */
  datatype Outcome<+E> = Pass | Fail(error: E)

  /** A value, or failure with an error value: the model of a method that returns or throws. */
  datatype Result<+R, +E> = Success(value: R) | Failure(error: E)
}
