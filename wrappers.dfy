/** Option and Result: the absent value (`null`/`undefined`) and the thrown exception of the services. */
module Wrappers {

  datatype Option<+T> = None | Some(value: T) {
    function GetOr(default: T): T {
      match this
      case Some(v) => v
      case None => default
    }
  }

  /** `Failure` stands for an exception thrown by the operation; `Success` for its normal return. */
  datatype Result<+R, +E> = Success(value: R) | Failure(error: E)
}
