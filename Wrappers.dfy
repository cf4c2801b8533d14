/** Option and the outcome of an endpoint: a value, or an HTTP-style status code and message. */
module Wrappers {

  datatype Option<+T> = None | Some(value: T) {
    function GetOr(default: T): T {
      match this
      case Some(v) => v
      case None => default
    }
  }

  /** A controller's answer: success with a value, or a failure status and its message. */
  datatype Outcome<+T> = Ok(value: T) | Fail(status: int, message: string)
}
