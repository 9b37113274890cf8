/** Optional values. */
module Wrappers {
  datatype Option<+T> = None | Some(value: T)
}

/** Results of operations that can fail. */
module Results {
  datatype Result<+T, +E> = Ok(value: T) | Err(error: E)
}
