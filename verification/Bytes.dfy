/** Byte strings. */
module Bytes {

  type Byte = x: int | 0 <= x < 256

  /** One piece of a sequence of byte strings. */
  datatype Chunk = Chunk(bytes: seq<Byte>)
}
