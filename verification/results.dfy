/** Failure-compatible wrappers used by every operation that can raise an
    error in the offsets tracker. `Result` works with Dafny's `:-` operator,
    which plays the role of a thrown exception that aborts the operation. */
module Results {

  /** An optional value, standing in for a nullable Java reference. */
  datatype Option<+T> = None | Some(value: T)

  /** Either a value or the error that the operation raised. */
  datatype Result<+T, +E> = Success(value: T) | Failure(error: E) {

    predicate IsFailure() {
      Failure?
    }

    function PropagateFailure<U>(): Result<U, E>
      requires Failure?
    {
      Failure(error)
    }

    function Extract(): T
      requires Success?
    {
      value
    }
  }
}
