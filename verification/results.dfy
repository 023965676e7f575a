/** Failure-compatible wrappers used throughout the model. */
module Results {

  /** A value that may be absent: a blank reading, or a ratio that is NaN. */
  datatype Option<+T> = None | Some(value: T)

  /** The outcome of a step of the script that can raise an exception. */
  datatype Result<+T, +E> = Success(value: T) | Failure(error: E) {

    predicate IsFailure() {
      Failure?
    }

    function PropagateFailure<U>(): Result<U, E>
      requires Failure?
    {
      Failure(error)
    }

    function Extract(): T
      requires Success?
    {
      value
    }
  }
}
