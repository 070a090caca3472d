/**
 * Byte-level helpers the checksum engines are built from: extracting the
 * n-th byte of a wider value and mirroring the bit order of a byte, of the
 * low half-word and of a whole 32-bit word.
 *
 * `NBYTE` and `BYTE_REVERSE` are defined in a header outside this model;
 * here they are taken to be:
 *   NthByte(n, x) == (x >> 8n) & 0xFF, and
 *   Reverse8(b)   == b with bit i moved to bit 7 - i.
 */
module BitOps {

  /**
   * `NBYTE(n, x)`: byte `n` of `x`, byte 0 being the least significant.
   * The index is a byte-sized counter, like the loop counters that feed it.
   */
  function NthByte(n: bv8, x: bv64): bv8
    requires n < 8
  {
    ((x >> (n * 8)) & 0xFF) as bv8
  }

  /** `BYTE_REVERSE(b)`: bit i of the result is bit 7 - i of `b`. */
  function Reverse8(b: bv8): bv8
  {
    ((b & 0x01) << 7) | ((b & 0x02) << 5) | ((b & 0x04) << 3) | ((b & 0x08) << 1) |
    ((b & 0x10) >> 1) | ((b & 0x20) >> 3) | ((b & 0x40) >> 5) | ((b & 0x80) >> 7)
  }

  /**
   * The 16-bit output reflection of the CRC-16 engine: the two low bytes of
   * the register swapped and each bit-reversed. Bits 16..31 are dropped.
   */
  function Reflect16(x: bv32): bv32
  {
    (Reverse8(NthByte(1, x as bv64)) as bv32) |
    ((Reverse8(NthByte(0, x as bv64)) as bv32) << 8)
  }

  /**
   * The 32-bit reflection used by the CRC-32 engine (for its polynomial and
   * its output): all four bytes swapped end for end and each bit-reversed.
   */
  function Reflect32(x: bv32): bv32
  {
    (Reverse8(NthByte(3, x as bv64)) as bv32) |
    ((Reverse8(NthByte(2, x as bv64)) as bv32) << 8) |
    ((Reverse8(NthByte(1, x as bv64)) as bv32) << 16) |
    ((Reverse8(NthByte(0, x as bv64)) as bv32) << 24)
  }

  // Independent reference definitions of bit mirroring: the classic
  // swap network that exchanges halves, then quarters, ..., then single bits.

  function MirrorByte(b: bv8): bv8
  {
    var n := ((b & 0xF0) >> 4) | ((b & 0x0F) << 4);
    var q := ((n & 0xCC) >> 2) | ((n & 0x33) << 2);
    ((q & 0xAA) >> 1) | ((q & 0x55) << 1)
  }

  /** The mirror of the low 16 bits of `x`; bits 16..31 are dropped. */
  function MirrorHalf(x: bv32): bv32
  {
    var y := ((x >> 8) & 0xFF) | ((x & 0xFF) << 8);
    var n := ((y & 0xF0F0) >> 4) | ((y & 0x0F0F) << 4);
    var q := ((n & 0xCCCC) >> 2) | ((n & 0x3333) << 2);
    ((q & 0xAAAA) >> 1) | ((q & 0x5555) << 1)
  }

  function MirrorWord(x: bv32): bv32
  {
    var h := (x >> 16) | (x << 16);
    var y := ((h & 0xFF00FF00) >> 8) | ((h & 0x00FF00FF) << 8);
    var n := ((y & 0xF0F0F0F0) >> 4) | ((y & 0x0F0F0F0F) << 4);
    var q := ((n & 0xCCCCCCCC) >> 2) | ((n & 0x33333333) << 2);
    ((q & 0xAAAAAAAA) >> 1) | ((q & 0x55555555) << 1)
  }

  /** Reverse8 is the bit mirror of a byte. */
  lemma Reverse8IsMirror(b: bv8)
    ensures Reverse8(b) == MirrorByte(b)
  {
  }

  /** The bit mirror of a reversed byte is the byte. */
  lemma MirrorOfReverse8(b: bv8)
    ensures MirrorByte(Reverse8(b)) == b
  {
    Reverse8IsMirror(Reverse8(b));
    Reverse8Involutive(b);
  }

  /** Reverse8 undoes itself. */
  lemma Reverse8Involutive(b: bv8)
    ensures Reverse8(Reverse8(b)) == b
  {
  }

  /** Reflect16 is the bit mirror of the low 16 bits of the register. */
  lemma Reflect16IsMirror(x: bv32)
    ensures Reflect16(x) == MirrorHalf(x)
  {
  }

  /** Reflect16 undoes itself on the active 16 bits. */
  lemma Reflect16Involutive(x: bv32)
    ensures Reflect16(Reflect16(x)) == x & 0xFFFF
  {
  }

  /** Reflect32 is the bit mirror of the whole word. */
  lemma Reflect32IsMirror(x: bv32)
    ensures Reflect32(x) == MirrorWord(x)
  {
  }

  /** Reflect32 undoes itself. */
  lemma Reflect32Involutive(x: bv32)
    ensures Reflect32(Reflect32(x)) == x
  {
  }

  /** Reflect32 commutes with exclusive or. */
  lemma Reflect32Xor(x: bv32, y: bv32)
    ensures Reflect32(x ^ y) == Reflect32(x) ^ Reflect32(y)
  {
  }

  /** Mirrored, a left shift is a right shift. */
  lemma Reflect32Shift(r: bv32)
    ensures Reflect32(r << 1) == Reflect32(r) >> 1
  {
    Reflect32IsMirror(r);
    Reflect32IsMirror(r << 1);
    MirrorWordShift(r);
  }

  lemma MirrorWordShift(r: bv32)
    ensures MirrorWord(r << 1) == MirrorWord(r) >> 1
  {
  }

  /** Mirrored, bit 31 is bit 0. */
  lemma Reflect32TopBit(r: bv32)
    ensures (Reflect32(r) & 1 == 1) == (r & 0x8000_0000 != 0)
  {
  }

  /** A byte in bits 24..31, mirrored, is the reversed byte in bits 0..7. */
  lemma Reflect32TopByte(b: bv8)
    ensures Reflect32((b as bv32) << 24) == Reverse8(b) as bv32
  {
  }

  /** The CRC-32 generator of IEEE 802.3 and its published reflected form. */
  lemma Reflect32OfIeeePolynomial()
    ensures Reflect32(0x04C1_1DB7) == 0xEDB8_8320
  {
  }

  // ---------------------------------------------------------------------
  // Narrow values held in the 32-bit accumulator, zero-extended.

  /** A byte, or an 8-bit register, held in the accumulator. */
  function Widen8(r: bv8): (w: bv32)
    ensures w < 0x100
    ensures w as bv8 == r
  {
    r as bv32
  }

  /** A 16-bit register held in the accumulator. */
  function Widen16(r: bv16): (w: bv32)
    ensures w < 0x1_0000
    ensures w as bv16 == r
  {
    r as bv32
  }
}
