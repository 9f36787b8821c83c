/** Optional values and success/failure results used throughout the model. */
module Wrappers {

  /** A value that may be missing, as a key absent from a JSON object or a dict. */
  datatype Option<+T> = None | Some(value: T) {
    function GetOr(default: T): T {
      match this
      case Some(v) => v
      case None => default
    }
  }

  /** The outcome of a request handler: a response or the error it reports. */
  datatype Result<+R, +E> = Success(value: R) | Failure(error: E)
}
