/**
 * Rust's `Option` and `Result`, and the errors the constructions return.
 */
module Outcomes {
  datatype Option<T> = None | Some(value: T)

  /** The two `Err` cases the stream ciphers return (both `ErrorKind::Other` in Rust). */
  datatype Error =
    | KeyNotSet       // `init` before any `rekey`
    | NotInitialized  // `next` or `next_p_bytes` before `init`

  datatype Result<T> = Ok(value: T) | Err(error: Error)
}
