/** Failure-carrying results for the inference server: a Python exception is
    modelled as an error value naming its class and carrying its message. */
module Errors {

  datatype Option<+T> = None | Some(value: T) {
    /** The value, or `default` when absent (Python's `dict.get(key, default)`). */
    function GetOr(default: T): T {
      match this
      case Some(v) => v
      case None => default
    }
  }

  /** The Python exception classes the modelled code raises. */
  datatype Exception =
    | ValueError(message: string)
    | RuntimeError(message: string)
    | FileNotFoundError(message: string)
    | KeyError(message: string)
    | OverflowError(message: string)
    | GenericException(message: string)   // a bare `Exception(...)`

  datatype Result<+T> = Success(value: T) | Failure(error: Exception)
}
