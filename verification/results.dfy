/** Outcomes of the modelled operations: a value, or the Python exception
    that model.py raises and does not catch. */
module Results {

  /** The uncaught exceptions of the modelled code. */
  datatype Error =
    | ZeroDivision    // `x / 0`
    | MathDomain      // `math.log` of a non-positive number
    | KeyError        // a dict lookup of a missing key
    | AttributeError  // `.items()` on the `(False, 0)` tuple returned for an empty trie

  datatype Option<+T> = None | Some(value: T)

  /** A value or the exception that aborted the computation; usable with `:-`. */
  datatype Result<+T> = Ok(value: T) | Err(error: Error) {

    predicate IsFailure() {
      Err?
    }

    function PropagateFailure<U>(): Result<U>
      requires Err?
    {
      Err(error)
    }

    function Extract(): T
      requires Ok?
    {
      value
    }
  }
}
