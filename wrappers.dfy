/** Failure-compatible wrappers shared by the outline model. */
module Wrappers {

  /** A value that may be absent: JavaScript's `null` / `undefined`. */
  datatype Option<+T> = None | Some(value: T)

  /** The outcome of an operation that may throw: `Err` stands for a thrown `Error`. */
  datatype Result<+T> = Ok(value: T) | Err(message: string)
}
