/** Failure-compatible wrappers used for the Python code's exceptions and `None` results. */
module Wrappers {

  datatype Option<+T> = None | Some(value: T)

  /** Either a value or the error that the Python code would raise instead. */
  datatype Result<+T, +E> = Success(value: T) | Failure(error: E) {
    predicate IsFailure() {
      Failure?
    }

    function PropagateFailure<U>(): Result<U, E>
      requires Failure?
    {
      Failure(error)
    }

    function Extract(): T
      requires Success?
    {
      value
    }
  }
}
