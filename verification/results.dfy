/** Failure-compatible wrappers used to model C++ exceptions and null results. */
module Results {

  /** An optional value: `None` stands for a null `std::unique_ptr`. */
  datatype Option<+T> = None | Some(value: T)

  /** Either a value or the error a C++ call would have thrown. */
  datatype Result<+T, +E> = Success(value: T) | Failure(error: E) {

    predicate IsFailure() {
      Failure?
    }

    function PropagateFailure<U>(): Result<U, E>
      requires Failure?
    {
      Failure(error)
    }

    function Extract(): T
      requires Success?
    {
      value
    }
  }
}
