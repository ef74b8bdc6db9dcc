/** The small datatypes that several modules share. */
module Wrappers {

  datatype Option<T> = None | Some(value: T)

  /** The value a callback returns and the error a call can fail with: of either only
      the identity matters. */
  datatype Value = Value(id: int)

  datatype Error = Error(id: int)

  /** What calling a callback comes to; for a worker pool a recovered panic is an
      error too. */
  datatype Outcome = Ok(value: Value) | Err(error: Error)
}
