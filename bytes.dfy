/** Bytes as Java sees them in this code: unsigned values written to and read
    from files, and `byte[]` arrays, whose length is a non-negative `int`. */
module Bytes {

  /** One octet of a file, `0..255`. */
  type Byte = b: int | 0 <= b < 256

  /** The largest length a Java array can have. */
  const MaxArrayLength: int := 0x7FFF_FFFF

  /** A `byte[]`: a byte string no longer than a Java array can be. */
  type JBytes = b: seq<Byte> | |b| <= MaxArrayLength
}
