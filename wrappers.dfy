/** Option and Result, the failure-carrying types the rest of the model uses
    for Python's `None`, missing keys and raised exceptions. */
module Wrappers {

  datatype Option<+T> = None | Some(value: T) {
    /** The value, or `default` when absent (Python's `dict.get(key, default)`). */
    function GetOr(default: T): T {
      match this
      case Some(v) => v
      case None => default
    }
  }

  /** `Ok` is a normal return, `Err` a raised exception with its payload. */
  datatype Result<+T, +E> = Ok(value: T) | Err(error: E)
}
