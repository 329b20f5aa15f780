/** Small value types shared by every module of the board model. */
module Common {

  /** A value that may be absent: SQL NULL, JavaScript null/undefined, or a row not found. */
  datatype Option<+T> = None | Some(value: T)

  /** The outcome of a request handler: a reply, or the reason it was refused. */
  datatype Result<+T, +E> = Ok(value: T) | Err(error: E)
}
