/** Optional values and error-carrying results, used for the filter's skip and usage-error paths. */
module Options {

  /** A value that may be absent: a table file that does not exist, a notation that is skipped. */
  datatype Option<+T> = None | Some(value: T)

  /** A value or the error that prevented computing it. */
  datatype Result<+T, +E> = Ok(value: T) | Err(error: E)
}
