/** Bytes as 8-bit vectors, and their values as integers. */
module Bytes {
  type byte = bv8

  /** The byte of a given value, counted up from 0. */
  function ToByte(x: nat): (b: byte)
    requires x < 0x100
    ensures b as int == x
  {
    if x == 0 then 0 else Successor(ToByte(x - 1))
  }

  /** Bits 1 to 6, where a NAL header byte has its type (section 1.1.4 of RFC 7798). */
  function TypeBits(header: byte): byte {
    (header & 0x7e) >> 1
  }

  function Successor(b: byte): (next: byte)
    requires b as int < 0xff
    ensures next as int == b as int + 1
  {
    b + 1
  }

  lemma ToByteOf(b: byte, x: int)
    requires x == b as int
    ensures 0 <= x < 0x100 && ToByte(x) == b
  {
    SameValue(ToByte(x), b);
  }

  lemma SameValue(a: byte, b: byte)
    requires a as int == b as int
    ensures a == b
  {
  }
}
