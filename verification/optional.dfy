/** Rust's `Option`, used for the names that a resolver may have failed to find. */
module Optional {

  datatype Option<+T> = None | Some(value: T)
}
