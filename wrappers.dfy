/** Failure-compatible wrappers used across the model for .NET's nullable values and exceptions. */
module Wrappers {

  /** A value that may be absent (a nullable reference or an optional attribute). */
  datatype Option<+T> = None | Some(value: T) {

    /** The value, or `default` when absent (.NET's GetValueOrDefault). */
    function GetOr(default: T): T {
      match this
      case Some(v) => v
      case None => default
    }
  }

  /** Either a value or the exception the source would have thrown. */
  datatype Result<+T, +E> = Success(value: T) | Failure(error: E) {

    predicate IsFailure() {
      Failure?
    }

    function PropagateFailure<U>(): Result<U, E>
      requires Failure?
    {
      Failure(error)
    }

    function Extract(): T
      requires Success?
    {
      value
    }
  }
}
