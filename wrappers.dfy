/** Failure-compatible result types shared by every module of the model. */
module Wrappers {

  /** Go's `(value, error)` pair: exactly one of the two is meaningful. */
  datatype Result<+T, +E> = Success(value: T) | Failure(error: E)
  {
    predicate IsFailure() { Failure? }

    function PropagateFailure<U>(): Result<U, E>
      requires Failure?
    {
      Failure(error)
    }

    function Extract(): T
      requires Success?
    {
      value
    }
  }

  /** A value that Go represents by a possibly-nil pointer or map. */
  datatype Option<+T> = None | Some(value: T)
}
