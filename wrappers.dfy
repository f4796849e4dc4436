/** Option, Result and Outcome: the values the model uses in place of
    C#'s null references and thrown exceptions. */
module Wrappers {

  /** A value that may be absent (a nullable reference, or a read that failed). */
  datatype Option<+T> = None | Some(value: T) {
    function GetOr(default: T): T {
      match this
      case Some(v) => v
      case None => default
    }
  }

  /** A computation that either produces a value or raises an error. */
  datatype Result<+T, +E> = Success(value: T) | Failure(error: E)

  /** A computation with no value that either completes or raises an error. */
  datatype Outcome<+E> = Pass | Fail(error: E)
}
