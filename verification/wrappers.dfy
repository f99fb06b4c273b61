/** Failure-compatible result type used wherever the modelled code can throw. */
module Wrappers {

  /** Either the value an operation produced, or the error it raised instead. */
  datatype Result<+T, +E> = Ok(value: T) | Err(error: E)

  /** The conventional nullable wrapper: `None` stands for a C# `null`. */
  datatype Option<+T> = None | Some(value: T)
}
