/** Optional values and results, for SQL NULLs, rows that may be missing and error paths. */
module Options {

  datatype Option<+T> = None | Some(value: T)

  datatype Result<+T, +E> = Ok(value: T) | Err(error: E)
}
