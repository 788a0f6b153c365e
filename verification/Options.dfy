/** Optional values and results, standing in for Go's nil results and its pairs of a value and an error. */
module Options {
  datatype Option<+T> = None | Some(value: T)

  datatype Result<+T, +E> = Ok(value: T) | Err(error: E)
}
