/** Fixed-width integers and the byte-order decoders both parsers use. */
module Bytes {

  type byte = bv8

  const U32_LIMIT: nat := 0x1_0000_0000
  const U64_LIMIT: nat := 0x1_0000_0000_0000_0000

  type u32 = x: nat | x < U32_LIMIT
  type u64 = x: nat | x < U64_LIMIT

  /** C `u64` addition: the mathematical sum, less 2^64 when it does not fit. */
  function Add64(a: u64, b: u64): (r: u64)
    ensures a + b < U64_LIMIT ==> r == a + b
    ensures a + b >= U64_LIMIT ==> r == a + b - U64_LIMIT
  {
    if a + b < U64_LIMIT then a + b else a + b - U64_LIMIT
  }

  /** The four bytes at `at` read most-significant first, i.e. a
      little-endian load followed by `__builtin_bswap32`. */
  function BE32(b: seq<byte>, at: nat): (r: u32)
    requires at + 4 <= |b|
  {
    (b[at] as nat) * 0x100_0000 + (b[at + 1] as nat) * 0x1_0000
      + (b[at + 2] as nat) * 0x100 + (b[at + 3] as nat)
  }

  /** The four bytes at `at` read least-significant first (a native load). */
  function LE32(b: seq<byte>, at: nat): (r: u32)
    requires at + 4 <= |b|
  {
    (b[at + 3] as nat) * 0x100_0000 + (b[at + 2] as nat) * 0x1_0000
      + (b[at + 1] as nat) * 0x100 + (b[at] as nat)
  }
}
