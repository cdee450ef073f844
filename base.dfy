/** Optional values and error-carrying results, shared by every module. */
module Base {

  /** Python's `None`-or-value return convention. */
  datatype Option<+T> = None | Some(value: T)

  /** A value, or the error that the source raises or reports instead. */
  datatype Result<+T, +E> = Ok(value: T) | Err(error: E)
}
