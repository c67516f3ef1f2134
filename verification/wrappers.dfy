/** Option and Result: the JavaScript `null`-or-value and thrown-or-returned shapes. */
module Wrappers {

  /** A value that may be absent; models a TypeScript `T | null`. */
  datatype Option<+T> = None | Some(value: T) {

    /** The wrapped value, or `default` when absent. */
    function GetOr(default: T): T {
      match this
      case Some(v) => v
      case None => default
    }
  }

  /** A computation that either returns a value or throws an error value. */
  datatype Result<+R, +E> = Success(value: R) | Failure(error: E)
}
