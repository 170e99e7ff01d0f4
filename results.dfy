/** Outcome wrappers shared by the parser, the batch editor and the session. */
module Results {

  /** A value, or the reason the operation refused (the source raises an exception). */
  datatype Result<+T, +E> = Ok(value: T) | Err(error: E)

  /** A value that may be absent (a dialog that was cancelled, nothing selected). */
  datatype Option<+T> = None | Some(value: T)
}
