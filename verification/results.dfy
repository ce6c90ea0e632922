/** The two failure-carrying shapes the model uses: a Python value that may be
    `None`, and the outcome of a call that may raise. */
module Results {

  /** A Python value of type `T | None`. */
  datatype Option<+T> = None | Some(value: T)

  /** The outcome of a Python call: a returned value, or the exception it raises. */
  datatype Result<+T, +E> = Ok(value: T) | Err(error: E)
  {
    predicate IsFailure() { Err? }

    function PropagateFailure<U>(): Result<U, E>
      requires Err?
    {
      Err(error)
    }

    function Extract(): T
      requires Ok?
    {
      value
    }
  }

  /** Python truthiness of an optional string: present and non-empty. */
  predicate Given(s: Option<string>)
  {
    s.Some? && |s.value| > 0
  }
}
