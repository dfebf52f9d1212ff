/** Failure-compatible result types shared by every layer of the model. */
module Results {

  /** An optional value; `None` is a failure for the `:-` operator. */
  datatype Option<+T> = None | Some(value: T) {
    predicate IsFailure() { None? }

    function PropagateFailure<U>(): Option<U>
      requires None?
    {
      None
    }

    function Extract(): T
      requires Some?
    {
      value
    }
  }

  /** A value or an error; `Err` is a failure for the `:-` operator. */
  datatype Result<+T, +E> = Ok(value: T) | Err(error: E) {
    predicate IsFailure() { Err? }

    function PropagateFailure<U>(): Result<U, E>
      requires Err?
    {
      Err(error)
    }

    function Extract(): T
      requires Ok?
    {
      value
    }
  }

  /** The outcome of a decoder that can also panic: `Invalid` is the source's
      `None`, `Panic` an out-of-bounds slice index or an explicit `panic!`. */
  datatype Parse<+T> = Parsed(value: T) | Invalid | Panic {
    predicate IsFailure() { !Parsed? }

    function PropagateFailure<U>(): Parse<U>
      requires !Parsed?
    {
      if Invalid? then Invalid else Panic
    }

    function Extract(): T
      requires Parsed?
    {
      value
    }
  }
}
