/** Octets, as Rust's `u8`. */
module Bytes {
  newtype byte = x: int | 0 <= x < 256
}
