/** Rust's `Option`, as returned by `longest_common_substring`. */
module Optional {
  datatype Option<+T> = None | Some(value: T)
}
