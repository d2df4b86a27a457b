/** Failure-compatible wrappers shared by every module of the model. */
module Wrappers {

  /** A value that may be absent: `None` stands for a C# `null`. */
  datatype Option<+T> = None | Some(value: T)

  /** The outcome of a C# method that returns normally (`Pass`) or throws (`Fail`). */
  datatype Outcome<+E> = Pass | Fail(error: E)

  /** The outcome of a C# method that returns a value (`Ok`) or throws (`Err`). */
  datatype Result<+T, +E> = Ok(value: T) | Err(error: E)
}
