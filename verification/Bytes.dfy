/** Bytes and byte strings: the narrow `char_t` strings of pugixml, NUL terminator not stored. */
module Bytes {
  type byte = x: int | 0 <= x < 256

  type bytes = seq<byte>

  /** The C view of a string: reading at or past the end yields the terminator. */
  function At(s: bytes, i: nat): byte {
    if i < |s| then s[i] else 0
  }

  predicate StartsWith(s: bytes, prefix: bytes) {
    |prefix| <= |s| && s[..|prefix|] == prefix
  }
}
