/** `Option` and `Result`, used across the model. */
module Wrappers {

  /** An optional value: a missing response field, an unmatched file, a failed request. */
  datatype Option<+T> = None | Some(value: T) {

    /** The wrapped value, or `default` when there is none. */
    function GetOr(default: T): T {
      match this
      case Some(v) => v
      case None => default
    }
  }

  /** Either a value or an error that the caller can tell apart from any value. */
  datatype Result<+R, +E> = Success(value: R) | Failure(error: E)
}
