/** Failure-carrying values used in place of the exceptions thrown by the
    designer script and by the rule-generation module. */
module Results {

  /** A value that may be absent (an optional key of a dict). */
  datatype Option<T> = None | Some(value: T)

  /** Either a computed value or the error that a call raised instead. */
  datatype Result<T, E> = Ok(value: T) | Err(error: E) {

    predicate IsFailure() {
      Err?
    }

    function PropagateFailure<U>(): Result<U, E>
      requires Err?
    {
      Err(error)
    }

    function Extract(): T
      requires Ok?
    {
      value
    }
  }
}
