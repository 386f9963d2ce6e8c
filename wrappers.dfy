/** Failure-compatible wrappers used to model the exceptions the pipeline can raise. */
module Wrappers {

  /** A value that may be absent; `None` stands for a raised exception. */
  datatype Option<+T> = None | Some(value: T)

  /** A value or the error condition that stopped the computation. */
  datatype Result<+T, +E> = Ok(value: T) | Err(error: E)
}
