/** Bytes as numbers, and values that may be absent. */
module Octets {

  type Byte = x: nat | x < 256

  datatype Option<T> = None | Some(value: T)
}
