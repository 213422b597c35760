/** Option and Result values standing for Rust's `Option` and `Result`. */
module Results {

  datatype Option<T> = None | Some(value: T)

  /** `Result<T, String>`: a value, or an error message. */
  datatype Result<T> = Ok(value: T) | Err(error: string)

  /** `Result<(), String>`. */
  datatype Outcome = Pass | Fail(error: string)
}
