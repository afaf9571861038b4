/** Option and Result, used for Java's nullable references and for exceptions. */
module Wrappers {

  /** A Java reference that may be null: None stands for null. */
  datatype Option<+T> = None | Some(value: T)

  /** The outcome of an operation that may throw: Err carries the exception's message. */
  datatype Result<+R, +E> = Ok(value: R) | Err(error: E)
}
