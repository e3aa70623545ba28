/** Optional values (Java `null`) and results of operations that may throw. */
module Wrappers {

  /** A Java reference that may be `null`. */
  datatype Option<+T> = None | Some(value: T) {
    function GetOr(default: T): T {
      match this
      case Some(v) => v
      case None => default
    }
  }

  /** The outcome of a Java call that either returns a value or throws an exception with a message. */
  datatype Result<+T> = Success(value: T) | Failure(message: string)
}
