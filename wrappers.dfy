/** Option and Result values for the absent keys and raised exceptions of the modelled code. */
module Wrappers {

  datatype Option<+T> = None | Some(value: T) {
    function GetOr(default: T): T {
      match this
      case Some(v) => v
      case None => default
    }
  }

  /** Success carries the value; Failure stands for an exception that ends the operation. */
  datatype Result<+T, +E> = Success(value: T) | Failure(error: E)
}
