/** Byte strings: the keys and values of the store. */
module Bytes {

  type byte = b: int | 0 <= b < 256
  type Bytes = seq<byte>
  type Key = Bytes
  type Value = Bytes

  datatype Option<+T> = None | Some(value: T)
}
