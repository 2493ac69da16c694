/** Failure-compatible wrappers shared by the calculator modules. */
module Wrappers {

  /** An optional value; `None` stands for a JavaScript argument that was not supplied. */
  datatype Option<+T> = None | Some(value: T) {
    /** The wrapped value, or `default` when there is none. */
    function GetOr(default: T): T
    {
      match this
      case Some(v) => v
      case None => default
    }
  }

  /** The outcome of a calculator call: a value, or the message of the `Error` it throws. */
  datatype Result<+T> = Ok(value: T) | Err(message: string)
}
