/** Failure-carrying wrappers shared by every module of the model. */
module Outcomes {

  /** A value that may be absent; stands for Python's `None`. */
  datatype Option<+T> = None | Some(value: T)

  /** The outcome of a step that can raise. */
  datatype Result<+T, +E> = Ok(value: T) | Err(error: E)
}
