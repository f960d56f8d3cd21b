/** Option and Result, the two failure-carrying shapes the handler model uses:
    an absent value, and a value or the error that replaced it. */
module Outcomes {

  datatype Option<+T> = None | Some(value: T)

  datatype Result<+T, +E> = Ok(value: T) | Err(error: E)
}
