/** Failure-compatible optional value, used for decoders that may reject their input
    and for Rust's `Option<T>`. */
module Wrappers {
  datatype Option<+T> = None | Some(value: T)
}
