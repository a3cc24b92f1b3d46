/** Failure-carrying values shared by every module of the model. */
module Wrappers {

  /** A value that may be absent: Python's `None` versus a present value. */
  datatype Option<+T> = None | Some(value: T) {
    function GetOr(default: T): T {
      match this
      case Some(v) => v
      case None => default
    }
  }

  /** The outcome of an operation that may raise: `Err` stands for an exception
      the source raises (caught by its caller or not), carrying a short reason. */
  datatype Result<+T> = Ok(value: T) | Err(reason: string)
}
