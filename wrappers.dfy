/** The optional value and the value-or-error result shared by the other modules. */
module Wrappers {

  /** A value that may be absent; `None` stands for JavaScript's `null`. */
  datatype Option<T> = None | Some(value: T)

  /** A value, or the message of the `Error` the source throws. */
  datatype Result<T> = Ok(value: T) | Err(message: string)
}
