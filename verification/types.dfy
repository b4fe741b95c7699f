/** The optional and error-carrying values the conversion passes hand to each other. */
module Types {

  /** Python's `None` or a present value. */
  datatype Option<+T> = None | Some(value: T)

  /** A value, or the error the Python code would raise instead. */
  datatype Result<+T, +E> = Ok(value: T) | Err(error: E)
}
