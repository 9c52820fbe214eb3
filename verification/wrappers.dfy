/** Option and Result, standing in for Java's `null` returns and thrown
    `CommandException`s. */
module Wrappers {

  /** A value that may be absent: `None` plays the part of `null`. */
  datatype Option<+T> = None | Some(value: T)

  /** The outcome of a command: `Ok` on success, `Err` where the Java command throws a `CommandException`. */
  datatype Result<+T, +E> = Ok(value: T) | Err(error: E)
}
