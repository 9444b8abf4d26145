/** Option and Result, the two failure-carrying shapes used across the model. */
module Wrappers {

  /** A value that may be absent: JavaScript's `undefined`/`null` where the source uses them as "no value". */
  datatype Option<+T> = None | Some(value: T)

  /** The outcome of an operation that may throw: `Err` stands for the thrown error. */
  datatype Result<+T, +E> = Ok(value: T) | Err(error: E)
}
