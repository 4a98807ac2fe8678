/** Octets and an optional value, shared by the hex and UTF-8 codecs. */
module Bytes {

  /** One octet, as Foundation's `Data` and CryptoKit's digests hold them. */
  type Byte = x: int | 0 <= x < 256

  datatype Option<+T> = None | Some(value: T)
}
