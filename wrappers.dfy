/** Option, Result and Exception: a PHP `null`, a PHP call that either returns or throws, and what it throws. */
module Wrappers {

  datatype Option<+T> = None | Some(value: T)

  /** The outcome of a PHP call: `Ok` is a normal return, `Err` a thrown exception. */
  datatype Result<+T, +E> = Ok(value: T) | Err(error: E)

  /**
   * A thrown `\Exception`. Only the message is ever inspected; the class is kept
   * where the source throws one of its own (`\InvalidArgumentException`).
   */
  datatype Exception = InvalidArgument(message: string) | RemoteError(message: string)
}
