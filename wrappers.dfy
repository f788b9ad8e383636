/** Optional values and results with an error, used for the request body's
    possibly-absent fields and for the handler's error response. */
module Wrappers {

  datatype Option<+T> = None | Some(value: T)

  datatype Result<+R, +E> = Ok(value: R) | Err(error: E)
}
