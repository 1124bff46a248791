/** Option and Result datatypes used by the model. */
module Wrappers {

  /** An optional value: `None` stands for "absent" (an empty display, an
      unparsable number). */
  datatype Option<+T> = None | Some(value: T) {

    /** The wrapped value, or `default` when there is none. */
    function GetOr(default: T): T {
      match this
      case Some(v) => v
      case None => default
    }
  }

  /** Either a value or the reason there is none. */
  datatype Result<+R, +E> = Success(value: R) | Failure(error: E)
}
