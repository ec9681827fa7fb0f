/** The failure-carrying wrappers the model uses in place of Python's `None` and
    of the exceptions the script lets escape. */
module Base {

  /** A value that may be missing, like a Python variable that may hold `None`. */
  datatype Option<+T> = None | Some(value: T)

  /** Either a value or the fault that ended the computation. Usable with `:-`. */
  datatype Result<+T, +E> = Success(value: T) | Failure(error: E) {

    predicate IsFailure() {
      Failure?
    }

    function PropagateFailure<U>(): Result<U, E>
      requires Failure?
    {
      Failure(error)
    }

    function Extract(): T
      requires Success?
    {
      value
    }
  }
}
