/** Optional values, results and the Python exceptions the dashboard can raise. */
module Wrappers {

  /** A value that may be missing; a missing float (NaN) is None. */
  datatype Option<+T> = None | Some(value: T)

  /** The Python exceptions that escape the modelled callbacks. */
  datatype PyError =
    | IndexError          // positional access past the end of a list or frame
    | ValueError          // int() of a NaN float
    | OverflowError       // int() of an infinite float
    | ZeroDivisionError   // float division by zero in plain Python arithmetic
    | TypeError           // round() applied to a string sentinel, len(None)
    | UnboundLocalError   // a local variable read before any assignment

  /** The outcome of a callback: a value, or the exception it raises. */
  datatype Result<+R> = Ok(value: R) | Err(error: PyError) {
    predicate IsFailure() {
      Err?
    }

    function PropagateFailure<U>(): Result<U>
      requires Err?
    {
      Err(error)
    }

    function Extract(): R
      requires Ok?
    {
      value
    }
  }
}
