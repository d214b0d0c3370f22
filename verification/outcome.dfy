/** The failure behaviour of the reshape.

    The script defines no error types of its own: the only way the reshape
    fails is a Python `KeyError` raised by a dictionary lookup, which aborts
    `get_tables` and so yields no tables at all. `Result` carries either the
    finished value or that error, and is failure-compatible so that `:-`
    propagates the first error as the exception does.
 */
module Outcome {

  /** The exception raised by `genres_2_id[genre]` for a missing key. */
  datatype Error = KeyError(key: string)

  datatype Result<+T> = Ok(value: T) | Err(error: Error) {

    predicate IsFailure() {
      Err?
    }

    function PropagateFailure<U>(): Result<U>
      requires Err?
    {
      Err(error)
    }

    function Extract(): T
      requires Ok?
    {
      value
    }
  }
}
