/** Option and Result types shared by the whole model. */
module Wrappers {

  datatype Option<+T> = None | Some(value: T) {
    /** Ruby's `x || default` for a value that is either nil or present. */
    function GetOr(default: T): T {
      match this
      case Some(v) => v
      case None => default
    }
  }

  /** The outcome of an operation that may raise: a value, or the error it raises. */
  datatype Result<+R, +E> = Success(value: R) | Failure(error: E)
}
