/** Optional values and fallible results, the two shapes the portal's code
    returns in place of `null` and thrown errors. */
module Wrappers {

  /** A value that may be absent (`undefined`/`null` in the source). */
  datatype Option<+T> = None | Some(value: T) {
    function GetOr(default: T): T {
      match this
      case Some(v) => v
      case None => default
    }
  }

  /** The outcome of a call that may throw or reject: the value, or the
      rendered error message. */
  datatype Outcome<+T> = Ok(value: T) | Fail(error: string)
}
