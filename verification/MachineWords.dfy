/** 32-bit words and their bytes, the highest byte first. */
module MachineWords {
  type Bytes8 = seq<bv8>

  function Word(a: bv8, b: bv8, c: bv8, d: bv8): bv32 {
    ((a as bv32) << 24) | ((b as bv32) << 16) | ((c as bv32) << 8) | (d as bv32)
  }

  function Byte0(x: bv32): bv8 {
    ((x >> 24) & 0xFF) as bv8
  }

  function Byte1(x: bv32): bv8 {
    ((x >> 16) & 0xFF) as bv8
  }

  function Byte2(x: bv32): bv8 {
    ((x >> 8) & 0xFF) as bv8
  }

  function Byte3(x: bv32): bv8 {
    (x & 0xFF) as bv8
  }

  /** The number that four bytes make, by an example. */
  lemma WordExample()
    ensures Word(0x01, 0x23, 0x45, 0x67) == 0x0123_4567 && Word(0x89, 0xAB, 0xCD, 0xEF) == 0x89AB_CDEF
  {
  }

  lemma WordReadBack(w: bv32)
    ensures Word(Byte0(w), Byte1(w), Byte2(w), Byte3(w)) == w
  {
  }

  lemma BytesReadBack(a: bv8, b: bv8, c: bv8, d: bv8)
    ensures var w := Word(a, b, c, d); Byte0(w) == a && Byte1(w) == b && Byte2(w) == c && Byte3(w) == d
  {
  }

  /** A byte as an index or a digit. */
  function Octet(b: bv8): (i: nat)
    ensures i < 256
  {
    b as int
  }

  function XorByte(x: bv8, y: bv8): bv8 {
    x ^ y
  }
}
