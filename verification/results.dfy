/** Failure-carrying datatypes shared by the work-order model. */
module Results {

  /** A value that may be absent: a missing request field, a lookup that found no row. */
  datatype Option<+T> = None | Some(value: T)

  /** The outcome of an operation: its value, or the error the handler reports. */
  datatype Result<+T, +E> = Ok(value: T) | Err(error: E)
}
