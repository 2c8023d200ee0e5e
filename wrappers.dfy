/** Option and Result values, used for the source's `None` returns and its raised errors. */
module Wrappers {

  datatype Option<+T> = None | Some(value: T)

  /** `Ok` is a normal return; `Err` is an exception the source raises (or an early failure return). */
  datatype Result<+T, +E> = Ok(value: T) | Err(error: E)
}
