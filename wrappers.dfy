/** Failure-carrying results: `None` for a missing value, `Err` for a raised `ValueError`. */
module Wrappers {

  datatype Option<+T> = None | Some(value: T)

  datatype Result<+R, +E> = Ok(value: R) | Err(error: E)
}
