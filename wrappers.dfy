/** Option and Result values standing for Python's `None` and for raised exceptions. */
module Wrappers {

  datatype Option<+T> = None | Some(value: T)
  {
    function GetOr(default: T): T
    {
      match this
      case Some(v) => v
      case None => default
    }
  }

  /** The Python exception classes the modelled code raises or catches. */
  datatype Error =
    | ValueError(message: string)
    | AssertionError(message: string)
    | TypeError

  datatype Result<+T> = Ok(value: T) | Err(error: Error)
}
