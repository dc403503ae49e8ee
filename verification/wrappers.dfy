/** Wrappers used throughout the model: `Option` for the source's
    `None`-able values and `Result` for calls that either return a value or
    raise. */
module Wrappers {

  /** A value that may be absent (Python `None`). */
  datatype Option<+T> = None | Some(value: T) {

    /** The wrapped value, or `default` when absent. */
    function GetOr(default: T): T {
      match this
      case Some(v) => v
      case None => default
    }
  }

  /** The outcome of a call that may raise: a value or an error. */
  datatype Result<+R, +E> = Success(value: R) | Failure(error: E)
}
