/** Option and Result: the error path of the parser, which the source signals by throwing. */
module Wrappers {

  datatype Option<+T> = None | Some(value: T)

  /** A value or the error that stopped the computation; usable with `:-`. */
  datatype Result<+T, +E> = Success(value: T) | Failure(error: E) {

    predicate IsFailure() {
      Failure?
    }

    function PropagateFailure<U>(): Result<U, E>
      requires Failure?
    {
      Failure(error)
    }

    function Extract(): T
      requires Success?
    {
      value
    }
  }
}
