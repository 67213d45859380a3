/** Outcome types shared by the whole model. */
module Results {

  /** Rust's `Option<T>`. */
  datatype Option<+T> = None | Some(value: T)

  /** Rust's `std::io::Result<T>`, keeping only the error's message text
      (the text `std::io::Error::other(..)` was built from). */
  datatype Result<+T> = Ok(value: T) | Err(message: string)
}
