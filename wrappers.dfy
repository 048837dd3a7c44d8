/** Failure-compatible result types standing in for Ruby's raised exceptions. */
module Wrappers {

  /** A value that may be absent. */
  datatype Option<+T> = None | Some(value: T)

  /** A computation that yields a value or raises an error. */
  datatype Result<+T, +E> = Success(value: T) | Failure(error: E) {
    predicate IsFailure() { Failure? }

    function PropagateFailure<U>(): Result<U, E>
      requires Failure?
    {
      Failure(error)
    }

    function Extract(): T
      requires Success?
    {
      value
    }
  }

  /** A check that passes or raises an error, and yields nothing. */
  datatype Outcome<+E> = Pass | Fail(error: E)
}
