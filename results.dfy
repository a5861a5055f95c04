/** Outcomes of the core's operations: a value, or the Python exception the
    source raises instead of returning one. */
module Results {

  /** The two exceptions the modelled code can raise. */
  datatype Error = ValueError | IndexError

  /** A value, or the exception raised while computing it. Failure-compatible,
      so `:-` propagates the first exception as Python does. */
  datatype Result<+T> = Ok(value: T) | Err(error: Error) {

    predicate IsFailure() {
      Err?
    }

    function PropagateFailure<U>(): Result<U>
      requires Err?
    {
      Err(error)
    }

    function Extract(): T
      requires Ok?
    {
      value
    }
  }
}
