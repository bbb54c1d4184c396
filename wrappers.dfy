/** Failure-compatible result types used by every part of the model in place of
    the exceptions the game-theory code raises. */
module Wrappers {

  datatype Option<+T> = None | Some(value: T)

  /** The value of a computation that either succeeds with `value` or raises `error`. */
  datatype Result<+T, +E> = Success(value: T) | Failure(error: E) {
    predicate IsFailure() { Failure? }

    function PropagateFailure<U>(): Result<U, E>
      requires Failure?
    {
      Failure(error)
    }

    function Extract(): T
      requires Success?
    {
      value
    }
  }

  /** A computation that only reports whether it raised. */
  datatype Outcome<+E> = Pass | Fail(error: E)
}
