/** Failure-carrying results shared by the parser, the solver and the puzzle search. */
module Wrappers {

  /** A value that may be absent: Python's `None` versus a value. */
  datatype Option<T> = None | Some(value: T)

  /** A value or the error the source raises instead of returning one. */
  datatype Result<T, E> = Ok(value: T) | Err(error: E)
}
