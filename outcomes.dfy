/**
  * Optional values (Java's nullable references and `Integer`s) and the
  * results of operations that reject their arguments with an
  * `IllegalArgumentException`.
  */
module Outcomes {

  datatype Option<+T> = None | Some(value: T) {
    /** The value, or `default` when absent (`null != x ? x : default`). */
    function GetOr(default: T): T {
      match this
      case Some(v) => v
      case None => default
    }
  }

  /** An `IllegalArgumentException`, naming the parameter the message names. */
  datatype Error = IllegalArgument(argument: string)

  datatype Result<+T> = Success(value: T) | Failure(error: Error)
}
