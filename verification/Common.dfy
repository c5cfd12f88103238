/** Small shared datatypes: an absent-or-present value and a success-or-error value. */
module Common {
  datatype Option<+T> = None | Some(value: T)

  datatype Result<+T, +E> = Ok(value: T) | Err(error: E)
}
