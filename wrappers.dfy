/** Optional values, results and the exceptions the converter raises. */
module Wrappers {

  /** Python's `None` or a value. */
  datatype Option<+T> = None | Some(value: T) {
    function GetOr(default: T): T {
      match this
      case Some(v) => v
      case None => default
    }
  }

  /** The exception classes the converter raises, each with its message. */
  datatype Error =
    | ValueError(message: string)
    | TypeError(message: string)
    | AttributeError(message: string)
    | IndexError(message: string)

  /** A computation that returns a value or raises. */
  datatype Result<+T> = Ok(value: T) | Err(error: Error)
}
