/** Failure-compatible result types used for the errors the source throws. */
module Wrappers {

  datatype Option<+T> = None | Some(value: T)

  /** A value, or the message of the `Error` that was thrown instead. */
  datatype Result<+T, +E> = Success(value: T) | Failure(error: E) {
    predicate IsFailure() {
      Failure?
    }

    function PropagateFailure<U>(): (r: Result<U, E>)
      requires Failure?
    {
      Failure(error)
    }

    function Extract(): (r: T)
      requires Success?
    {
      value
    }
  }

  /** The outcome of a call that returns nothing when it succeeds. */
  datatype Outcome<+E> = Pass | Fail(error: E) {
    predicate IsFailure() {
      Fail?
    }

    function PropagateFailure<U>(): (r: Result<U, E>)
      requires Fail?
    {
      Failure(error)
    }
  }
}
