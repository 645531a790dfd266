/** The `Option` of the Rust standard library. */
module Options {
  datatype Option<T> = None | Some(value: T)
}
