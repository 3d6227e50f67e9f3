/** Option and Result, the model's stand-ins for Java's null and for a command that
    prints a message and exits. */
module Wrappers {

  /** A value that may be missing (Java null). */
  datatype Option<+T> = None | Some(value: T)

  /** A value or the error that stopped the computation. */
  datatype Result<+T, +E> = Ok(value: T) | Err(error: E)
}
