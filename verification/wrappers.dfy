/** Option and Result values, and the two Python exceptions that the modelled
    code can raise. */
module Wrappers {

  datatype Option<+T> = None | Some(value: T)

  /** A Python exception that escapes the modelled code. `ValueError` carries
      the text whose conversion failed. */
  datatype PyError =
    | StopIteration          // `next(file)` on a file with too few lines
    | ValueError(text: string)

  /** The outcome of a Python call: its value, or the exception it raises. */
  datatype Result<+T> = Ok(value: T) | Err(error: PyError) {

    /** `:-` stops at an exception and passes it on, as Python does. */
    predicate IsFailure() {
      Err?
    }

    function PropagateFailure<U>(): Result<U>
      requires Err?
    {
      Err(error)
    }

    function Extract(): T
      requires Ok?
    {
      value
    }
  }
}
