/** Failure-carrying wrappers shared by the whole model. */
module Wrappers {

  /** A value that may be absent: a missing CSV cell (pandas' NaN / <NA>) or an
      argument left at Python's `None`. */
  datatype Option<+T> = None | Some(value: T)

  /** The outcome of a step that may raise: `Err` stands for the exception. */
  datatype Result<+T, +E> = Ok(value: T) | Err(error: E)
}
