/** Failure-compatible wrappers shared by every page model. */
module Wrappers {

  /** A value that may be missing: a JavaScript `null`/`undefined` field or a failed parse. */
  datatype Option<+T> = None | Some(value: T)
  {
    /** The value, or `default` when missing. */
    function GetOr(default: T): T {
      match this
      case Some(v) => v
      case None => default
    }
  }

  /** The outcome of a page's fetch: the value it shows, or the message of the error it shows. */
  datatype Result<+R, +E> = Success(value: R) | Failure(error: E)
}
