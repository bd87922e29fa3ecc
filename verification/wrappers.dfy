/** Option and Result, the model's stand-ins for C#'s nullable values and exceptions. */
module Wrappers {

  datatype Option<+T> = None | Some(value: T) {

    /** This value if present, else Some(default). */
    function GetOrSome(default: T): Option<T> {
      if Some? then this else Some(default)
    }
  }

  datatype Result<+R, +E> = Success(value: R) | Failure(error: E)
}
