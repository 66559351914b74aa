/** Optional values, results that carry an error, and the width of Go's integers. */
module Wrappers {

  datatype Option<+T> = None | Some(value: T)

  datatype Result<+T, +E> = Ok(value: T) | Err(error: E)

  /** One more than the greatest uint64. */
  const UINT64_LIMIT: nat := 0x1_0000_0000_0000_0000
}
