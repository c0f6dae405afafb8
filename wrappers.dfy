/** Rust's `Option`, used for the optional hit record, material and scattered ray. */
module Wrappers {
  datatype Option<+T> = None | Some(value: T)
}
