/** A value that may be missing. */
module Wrappers {
  datatype Option<T> = None | Some(value: T)
}

/** Bytes as numbers, for code that computes with them. */
module ByteNumbers {
  type Byte = x: nat | x < 256
  type Bytes = seq<Byte>
}
