/** Option and Result values, used for the outcomes the source reports by
    exceptions and console messages. */
module Wrappers {

  datatype Option<+T> = None | Some(value: T)

  datatype Result<+T, +E> = Ok(value: T) | Err(error: E)
}
