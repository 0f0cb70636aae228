/**
 Bytes, byte strings and the small vocabulary every other module uses.
 A C `uint8_t` or `unsigned char` is a number below 256; a C string or an sds is a sequence of them.
 */
module Bytes {
  type byte = b: int | 0 <= b < 256

  datatype Option<+T> = None | Some(value: T)

  const NUL: byte := 0
  const DOT: byte := 0x2E
  const SLASH: byte := 0x2F
}
