/** The `Option` and `Result` wrappers shared by the catalog model. */
module Wrappers {

  /** A value that may be absent: an entry of a decomposition table, say. */
  datatype Option<+T> = None | Some(value: T)

  /** The outcome of an operation that can fail with an error of type `E`. */
  datatype Result<+R, +E> = Ok(value: R) | Err(error: E)
}
