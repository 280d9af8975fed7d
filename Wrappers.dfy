/** Failure-carrying datatypes used across the model. */
module Wrappers {

  /** A value that may be absent (`undefined` / `null` in the source). */
  datatype Option<+T> = None | Some(value: T)

  /** The outcome of an operation that can throw or reject: `Err` carries the message. */
  datatype Result<+T> = Ok(value: T) | Err(message: string)
}
