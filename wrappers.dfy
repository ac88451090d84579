/** Optional values (a JavaScript value that may be `undefined`) and results
    of operations that may reject (a promise that fails). */
module Wrappers {

  datatype Option<+T> = None | Some(value: T)

  datatype Result<+T, +E> = Ok(value: T) | Err(error: E)
}
