/** Optional values and the outcome of an operation that may raise `ValueError`. */
module Results {
  datatype Option<+T> = None | Some(value: T)

  datatype Result<+T> = Ok(value: T) | ValueError
}
