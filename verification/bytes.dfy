/** Raw bytes of the mapped measurements file and the C integer types the
    aggregation code works with. */
module Bytes {

  /** A byte of the file, as the unsigned value 0..255. */
  newtype byte = b: int | 0 <= b < 0x100

  /** The byte values the scanner and the parser look for. */
  const NUL: byte := 0x00
  const NEWLINE: byte := 0x0A
  const MINUS: byte := 0x2D
  const DOT: byte := 0x2E
  const ZERO: byte := 0x30
  const SEMICOLON: byte := 0x3B

  /** The byte at offset `k` of the mapped view of `file`. The view ends in
      the zero-filled remainder of its last page, which is the NUL sentinel
      that stops every scan; offsets past the file read as zero. */
  function At(file: seq<byte>, k: nat): byte
  {
    if k < |file| then file[k] else NUL
  }

  /** The bytes at offsets `from` (inclusive) to `to` (exclusive). */
  function Slice(file: seq<byte>, from: nat, to: nat): seq<byte>
    requires from <= to
  {
    seq(to - from, k requires 0 <= k < to - from => At(file, from + k))
  }

  /** The value of a byte read as a C `char`, which is signed on the target
      compiler: bytes 0x80..0xFF are -128..-1. */
  function Char(b: byte): (c: int)
    ensures -128 <= c < 128
    ensures c >= 0 <==> b < 0x80
    ensures c % 0x100 == b as int
  {
    if b < 0x80 then b as int else b as int - 256
  }

  /** A C `s16`. */
  newtype Int16 = x: int | -0x8000 <= x < 0x8000

  /** Converting an `int` back to `s16`: the value modulo 2^16, taken in the
      signed range (two's complement wrap-around). */
  function Wrap16(x: int): (r: Int16)
    ensures (r as int - x) % 0x1_0000 == 0
    ensures -0x8000 <= x < 0x8000 ==> r as int == x
  {
    var m := x % 0x1_0000;
    if m < 0x8000 then m as Int16 else (m - 0x1_0000) as Int16
  }
}
