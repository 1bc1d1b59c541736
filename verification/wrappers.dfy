/** Optional values and error-carrying results used across the model. */
module Wrappers {

  /** A JSON field that may be missing, or a computation that may yield no number
      (JavaScript's `undefined` and `NaN`). */
  datatype Option<+T> = None | Some(value: T) {

    /** JavaScript's `x || fallback` for a field that is either present or missing. */
    function OrElse(fallback: T): T {
      if Some? then value else fallback
    }
  }

  /** Either the saved value or the reason it was refused. The three members below let
      `:-` stop at the first refusal, the way an `await` that throws ends a handler. */
  datatype Result<+R, +E> = Ok(value: R) | Err(error: E) {

    predicate IsFailure() {
      Err?
    }

    function PropagateFailure<U>(): Result<U, E>
      requires Err?
    {
      Err(error)
    }

    function Extract(): R
      requires Ok?
    {
      value
    }
  }
}
