/** Optional values and results with an error, used for the dictionary
    lookups and the exceptions of the feed builder. */
module Wrappers {

  /** A value that may be absent, as a missing key of a JSON object. */
  datatype Option<+T> = None | Some(value: T) {

    /** The value, or `default` when there is none (Python's `dict.get`). */
    function GetOr(default: T): T {
      match this
      case Some(v) => v
      case None => default
    }
  }

  /** A computation that either succeeds or raises an error. */
  datatype Result<+T, +E> = Ok(value: T) | Err(error: E)
}
