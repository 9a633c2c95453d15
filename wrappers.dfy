/** Option and Result: a nullable reference and the outcome of a call that may throw. */
module Wrappers {

  /** A reference that may be null. */
  datatype Option<+T> = None | Some(value: T)

  /** Either the value a call returns or the exception it throws. */
  datatype Result<+T, +E> = Success(value: T) | Failure(error: E) {
    function Then<U>(f: T -> Result<U, E>): Result<U, E> {
      match this
      case Success(v) => f(v)
      case Failure(e) => Failure(e)
    }
  }

  /** The outcome of a call that returns nothing but may throw. */
  datatype Outcome<+E> = Pass | Fail(error: E)
}
