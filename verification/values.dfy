/** Small value wrappers shared by every module: Python's `None`-or-value
    returns and "returns a value or raises" outcomes. */
module Values {

  /** A value that may be absent (Python `None`). */
  datatype Option<+T> = None | Some(value: T) {

    /** The wrapped value, or `default` when absent (Python `dict.get(k, default)`). */
    function GetOr(default: T): T {
      match this
      case Some(v) => v
      case None => default
    }
  }

  /** The outcome of a call that either returns or raises. */
  datatype Result<+T, +E> = Ok(value: T) | Err(error: E)
}
