/** Failure-carrying results, for the `None` returns and the raised exceptions of the scripts. */
module Wrappers {

  datatype Option<+T> = None | Some(value: T) {
    function GetOr(default: T): T {
      match this
      case Some(v) => v
      case None => default
    }
  }

  /** The exceptions the scripts raise: a value that does not convert, or a file that does not exist. */
  datatype Error = ValueError(message: string) | FileNotFoundError(path: string)

  datatype Result<+T> = Ok(value: T) | Err(error: Error)
}
