/** Byte strings, shared by both halves of the model. */
module Slices {
  type byte = b: int | 0 <= b < 256

  type bytes = seq<byte>

  datatype Option<+T> = None | Some(value: T)
}
