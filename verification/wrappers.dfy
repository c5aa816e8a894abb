/** Failure-carrying values shared by every module of the model. */
module Wrappers {

  /** A value that may be absent: a JSON field that was not sent, a NULL column. */
  datatype Option<+T> = None | Some(value: T) {

    /** The wrapped value, or `default` when absent. */
    function GetOr(default: T): T {
      match this
      case Some(v) => v
      case None => default
    }
  }

  /** The outcome of a storage statement: a value, or the error the engine raised. */
  datatype Result<+T, +E> = Success(value: T) | Failure(error: E)
}
