/** Failure-carrying wrappers used by every module of the model. */
module Results {

  /** A value that may be absent: Python's `None` return or a caught `IndexError`. */
  datatype Option<+T> = None | Some(value: T)

  /** A value or the error a Python `raise` would have carried. */
  datatype Result<+T, +E> = Ok(value: T) | Err(error: E)
}
