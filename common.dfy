/** Option and Result, the failure-carrying values used throughout the model. */
module Wrappers {

  datatype Option<+T> = None | Some(value: T)

  /** The outcome of an operation that may throw: `Err` carries the message of
      the JavaScript `Error` it would throw. */
  datatype Result<+T> = Ok(value: T) | Err(message: string)
}

/** Octets, as held by a Node.js `Buffer`. */
module Bytes {

  type Byte = b: int | 0 <= b < 256
}
