/** Failure-compatible wrappers used throughout the model. */
module Wrappers {

  /** A value that may be absent. JavaScript's `NaN` from `parseInt` and an
      `undefined` array slot are both modelled as `None`. */
  datatype Option<+T> = None | Some(value: T)

  /** Either a value or the error that stopped the computation. */
  datatype Result<+R, +E> = Success(value: R) | Failure(error: E) {

    predicate IsFailure() {
      Failure?
    }

    function PropagateFailure<U>(): Result<U, E>
      requires Failure?
    {
      Failure(error)
    }

    function Extract(): R
      requires Success?
    {
      value
    }
  }
}
