/** Value-level stand-ins for Python's `None` and for raised exceptions. */
module Results {

  datatype Option<+T> = None | Some(value: T)

  /** `Err` carries what the Python code would have raised. */
  datatype Result<+T, +E> = Ok(value: T) | Err(error: E)
}
