/** Outcomes of the modelled operations: a value, or the Python exception
    `mytrie` raises instead. */
module Results {

  /** The exception classes the core raises. */
  datatype Error = KeyError | ValueError | IndexError

  datatype Result<+R> = Ok(value: R) | Err(error: Error) {
    predicate IsFailure() {
      Err?
    }

    function PropagateFailure<U>(): Result<U>
      requires Err?
    {
      Err(error)
    }

    function Extract(): R
      requires Ok?
    {
      value
    }
  }

  /** A node lookup that may find nothing (Python's `None` in `mytrie`). */
  datatype Option<+T> = None | Some(value: T)
}
