/** Bytes, and the keys and values made of them. */
module Bytes {
  type Byte = x: int | 0 <= x < 256

  type Key = seq<Byte>
  type Value = seq<Byte>
  type Store = map<Key, Value>
}
