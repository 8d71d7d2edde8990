/** The optional value returned by the searches of the model (Rust's `Option`). */
module Options {
  datatype Option<+T> = None | Some(value: T)
}
