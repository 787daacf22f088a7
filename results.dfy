/** The Rust `Option` and `Result`, as plain datatypes shared by the model. */
module Results {

  datatype Option<+T> = None | Some(value: T)

  datatype Result<+T, +E> = Ok(value: T) | Err(error: E)
}
