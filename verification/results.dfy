/** Failure values shared by the whole model.

    The Python code signals failure by raising; each raise site becomes an
    `Err` carrying the kind of exception that the interpreter would raise. */
module Results {

  /** The exception kinds that the modelled code can raise. */
  datatype Error =
    | TypeError          // wrong element or argument type, shift amount too large
    | ValueError         // `int(c)` on a character that is not a digit
    | AssertionError     // a failed `assert` (non-positive width, digit other than 0/1)
    | IndexError         // list index out of range
    | ZeroDivisionError  // integer division or modulo by zero
    | RuntimeError       // StopIteration escaping a generator
    | UnboundLocalError  // a local read before any assignment

  datatype Result<+T> = Ok(value: T) | Err(error: Error) {
    predicate IsFailure() { Err? }

    function PropagateFailure<U>(): Result<U>
      requires Err?
    {
      Err(error)
    }

    function Extract(): T
      requires Ok?
    {
      value
    }
  }

  /** Python's `None` or a value. */
  datatype Option<+T> = None | Some(value: T)
}
