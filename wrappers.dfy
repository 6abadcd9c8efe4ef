/** Option and Result, used for values the source may not have and for the
    exceptions its filesystem calls raise. */
module Wrappers {

  datatype Option<+T> = None | Some(value: T)

  datatype Result<+T, +E> = Ok(value: T) | Err(error: E)
}
