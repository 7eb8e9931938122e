/** Optional values and results with an error, used for Python's `None`-or-value
    lookups and for the exceptions the modelled code raises. */
module Wrappers {

  datatype Option<+T> = None | Some(value: T) {
    /** The value, or `default` when there is none. */
    function GetOr(default: T): T {
      match this
      case Some(v) => v
      case None => default
    }
  }

  /** The Python exceptions the modelled code can raise. */
  datatype Error = KeyError | ValueError

  datatype Result<+T> = Ok(value: T) | Err(error: Error)
}
