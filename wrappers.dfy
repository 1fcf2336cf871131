/** Failure-compatible wrappers used across the model. */
module Wrappers {

  /** An optional value: a DOM attribute that may be absent. */
  datatype Option<+T> = None | Some(value: T) {
    function GetOr(default: T): T {
      match this
      case Some(v) => v
      case None => default
    }
  }

  /** A value or the exception that aborted its computation. */
  datatype Result<+T, +E> = Success(value: T) | Failure(error: E) {
    predicate IsFailure() { Failure? }
    function PropagateFailure<U>(): Result<U, E>
      requires Failure?
    {
      Failure(error)
    }
    function Extract(): T
      requires Success?
    {
      value
    }
  }

  /** Normal completion or the exception thrown by a `void` Java method. */
  datatype Outcome<+E> = Pass | Fail(error: E)
}
