/** Failure-compatible result types shared by the models of both projects. */
module Wrappers {

  /** A value that may be absent: Java's `null`, or a piece a worker thread never delivered. */
  datatype Option<+T> = None | Some(value: T)

  /** The outcome of an operation that can raise an exception in the original program. */
  datatype Result<+T, +E> = Success(value: T) | Failure(error: E) {
    predicate IsFailure() {
      Failure?
    }

    function PropagateFailure<U>(): Result<U, E>
      requires Failure?
    {
      Failure(error)
    }

    function Extract(): T
      requires Success?
    {
      value
    }
  }
}
