/** The wrappers shared by every module of the model:
    `Option` for values that may be absent (a JSON field, a dictionary
    lookup) and `Result` for operations that throw in the app. */
module Wrappers {

  datatype Option<+T> = None | Some(value: T) {

    /** The wrapped value, or `default` when there is none (Swift's `??`). */
    function GetOr(default: T): T {
      match this
      case Some(v) => v
      case None => default
    }
  }

  datatype Result<+R, +E> = Success(value: R) | Failure(error: E)
}
