/** Optional values and error results, used in place of Python's `None`
    arguments and of the process exit / unbounded retry of the source. */
module Results {

  /** A value that may be absent, as an argument that may be `None`. */
  datatype Option<+T> = None | Some(value: T)

  /** Either a value or an error the caller has to handle. */
  datatype Result<+T, +E> = Ok(value: T) | Err(error: E)
}
