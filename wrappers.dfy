/** Option and Result, the two Rust enums the Merkle code returns. */
module Wrappers {

  datatype Option<+T> = None | Some(value: T)

  /** `Result<_, String>`: the error carries the message the code builds. */
  datatype Result<+T> = Ok(value: T) | Err(msg: string)
}
