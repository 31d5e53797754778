/** Failure-compatible result types shared by the pipeline modules. */
module Wrappers {

  datatype Option<+T> = None | Some(value: T)

  /** The outcome of a stage: a value, or the error that aborts the run. */
  datatype Result<+T, +E> = Success(value: T) | Failure(error: E) {
    predicate IsFailure() {
      Failure?
    }

    function PropagateFailure<U>(): Result<U, E>
      requires Failure?
    {
      Failure(error)
    }

    function Extract(): T
      requires Success?
    {
      value
    }
  }
}
