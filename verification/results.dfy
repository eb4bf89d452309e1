/** Failure-compatible wrappers shared by every module of the model. */
module Results {

  /** A Python value that may be `None`. */
  datatype Option<+T> = None | Some(value: T)

  /** The outcome of a Python call: a returned value or a raised exception. */
  datatype Result<+T, +E> = Ok(value: T) | Err(error: E) {

    predicate IsFailure() {
      Err?
    }

    function PropagateFailure<U>(): Result<U, E>
      requires Err?
    {
      Err(error)
    }

    function Extract(): T
      requires Ok?
    {
      value
    }
  }
}
