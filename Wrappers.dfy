/**
 * Option and Result, standing for C#'s nullable references and thrown exceptions, and
 * the bytes that files hold.
 */
module Wrappers {

  /** `None` is C#'s `null`. */
  datatype Option<+T> = None | Some(value: T) {
    function GetOr(default: T): T {
      match this
      case Some(v) => v
      case None => default
    }
  }

  /** `Failure` is an exception that the modelled code lets escape to its caller. */
  datatype Result<+R, +E> = Success(value: R) | Failure(error: E)

  newtype Byte = x: int | 0 <= x < 0x100

  type Bytes = seq<Byte>
}
