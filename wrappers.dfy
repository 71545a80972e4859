/** Optional values and results with an error, used for the relay's `?`, `??` and `throw`. */
module Wrappers {

  /** A value that may be absent: TypeScript's optional field or `undefined`. */
  datatype Option<+T> = None | Some(value: T) {

    /** The value if present, otherwise `default` (TypeScript's `??`). */
    function GetOr(default: T): T {
      match this
      case Some(v) => v
      case None => default
    }
  }

  /** The outcome of an operation that may throw: a value, or the thrown text. */
  datatype Result<+T, +E> = Success(value: T) | Failure(error: E)
}
