/** Failure-carrying result types shared by the whole model. A Rust `panic!` that the
    source uses to signal a programming error becomes a `Failure`/`Fail` value here. */
module Wrappers {

  datatype Option<+T> = None | Some(value: T)

  datatype Result<+R, +E> = Success(value: R) | Failure(error: E) {
    predicate IsFailure() {
      Failure?
    }

    function PropagateFailure<U>(): Result<U, E>
      requires Failure?
    {
      Failure(error)
    }

    function Extract(): R
      requires Success?
    {
      value
    }
  }

  /** A result without a value: the outcome of a `&mut self` operation that may panic. */
  datatype Outcome<+E> = Pass | Fail(error: E)
}
