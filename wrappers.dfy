/** Option and Result values shared by the models. */
module Wrappers {

  /** A value that may be absent (Python's `None`, or an "infinite" distance). */
  datatype Option<+T> = None | Some(value: T)

  /** The outcome of an operation that may raise (Python's exceptions). */
  datatype Result<+T, +E> = Ok(value: T) | Err(error: E)
}
