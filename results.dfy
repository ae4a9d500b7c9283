/** Failure-compatible wrappers shared by the three scripts' models. */
module Results {

  datatype Option<+T> = None | Some(value: T)

  /** A computation that either succeeds with a value or stops with a typed error
      (the Python scripts raise instead). */
  datatype Result<+T, +E> = Ok(value: T) | Err(error: E)
}
