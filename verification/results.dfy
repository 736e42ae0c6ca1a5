/** Optional values, and the Python exceptions the modelled server code can
    raise, as a result type that either carries a value or the exception. */
module Results {

  /** A value that may be absent (a missing request argument or JSON key). */
  datatype Option<+T> = None | Some(value: T) {

    /** The value, or `default` when absent: Python's `dict.get(key, default)`. */
    function GetOr(default: T): T {
      match this
      case Some(v) => v
      case None => default
    }
  }

  /** The exceptions the modelled code can raise. */
  datatype Fault =
    | OverflowError      // int.to_bytes(4, 'big') on a value outside 0 .. 2^32 - 1
    | MissingUserNumber  // int(None) when a poll carries no UserNumber argument

  /** Either the value an operation returns or the exception it raises. */
  datatype Result<+T> = Ok(value: T) | Err(fault: Fault)
}
