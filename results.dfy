/** The optional value and the success-or-error outcome used throughout the model. */
module Results {

  /** PHP's `null` or a value. */
  datatype Option<+T> = None | Some(value: T)

  /** A compilation either yields a value or fails with the exception the source throws. */
  datatype Result<+T, +E> = Ok(value: T) | Err(error: E)
}
