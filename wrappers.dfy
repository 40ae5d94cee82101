/** Failure-carrying values used throughout the model.
    - Option: a Python value that may be None.
    - Result: a value, or the message of an exception the Python code raises.
    - Outcome: a validator that either passes or raises ValueError with a message. */
module Wrappers {

  datatype Option<+T> = None | Some(value: T) {
    /** The value, or `default` for None (Python's `x or default` when x is falsy only for None). */
    function GetOr(default: T): T {
      match this
      case Some(v) => v
      case None => default
    }
  }

  datatype Result<+T> = Ok(value: T) | Err(error: string)

  datatype Outcome = Pass | Fail(error: string)
}
