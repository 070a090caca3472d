/**
 * The checksum algorithms: the three-phase protocol (set the base value,
 * accumulate one byte at a time, finalise) of the XOR checksum and of the
 * CRC-8, CRC-16 and CRC-32 engines, together with the CRC parameter record,
 * its constructors with their defaults, its fluent setters and the four
 * ready-made presets.
 *
 * Every phase works on the driver's 32-bit accumulator, modelled as `bv32`.
 * Input bytes are modelled as `bv8`, zero-extended when folded into the
 * accumulator (the behaviour of an unsigned `char`).
 */
module Algorithms {
  import opened BitOps

  /**
   * The five parameters of a CRC variant whose register width is that of `T`.
   * For CRC-32, `polynom` holds the bit-reflected polynomial (see `NewCrc32`).
   */
  datatype CrcParams<T> = CrcParams(polynom: T, base: T, finalXor: T, inReverse: bool, outReverse: bool)
  {
    /** Fluent setter of the polynomial as stored (the CRC-8 and CRC-16 form). */
    function SetPolynom(v: T): (r: CrcParams<T>)
      ensures r.polynom == v
      ensures r.base == base && r.finalXor == finalXor
      ensures r.inReverse == inReverse && r.outReverse == outReverse
    {
      this.(polynom := v)
    }

    function SetBase(v: T): (r: CrcParams<T>)
      ensures r.base == v
      ensures r.polynom == polynom && r.finalXor == finalXor
      ensures r.inReverse == inReverse && r.outReverse == outReverse
    {
      this.(base := v)
    }

    function SetFinalXor(v: T): (r: CrcParams<T>)
      ensures r.finalXor == v
      ensures r.polynom == polynom && r.base == base
      ensures r.inReverse == inReverse && r.outReverse == outReverse
    {
      this.(finalXor := v)
    }

    /** Called without an argument, the flag is set. */
    function SetInReverse(flag: bool := true): (r: CrcParams<T>)
      ensures r.inReverse == flag
      ensures r.polynom == polynom && r.base == base && r.finalXor == finalXor
      ensures r.outReverse == outReverse
    {
      this.(inReverse := flag)
    }

    /** Called without an argument, the flag is set. */
    function SetOutReverse(flag: bool := true): (r: CrcParams<T>)
      ensures r.outReverse == flag
      ensures r.polynom == polynom && r.base == base && r.finalXor == finalXor
      ensures r.inReverse == inReverse
    {
      this.(outReverse := flag)
    }
  }

  /** The CRC-8 constructor: every parameter but the polynomial has a default. */
  function NewCrc8(polynom: bv8, base: bv8 := 0, finalXor: bv8 := 0,
                   inReverse: bool := false, outReverse: bool := false): (p: CrcParams<bv8>)
    ensures p.polynom == polynom && p.base == base && p.finalXor == finalXor
    ensures p.inReverse == inReverse && p.outReverse == outReverse
  {
    CrcParams(polynom, base, finalXor, inReverse, outReverse)
  }

  /** The CRC-16 constructor: every parameter but the polynomial has a default. */
  function NewCrc16(polynom: bv16, base: bv16 := 0, finalXor: bv16 := 0,
                    inReverse: bool := false, outReverse: bool := false): (p: CrcParams<bv16>)
    ensures p.polynom == polynom && p.base == base && p.finalXor == finalXor
    ensures p.inReverse == inReverse && p.outReverse == outReverse
  {
    CrcParams(polynom, base, finalXor, inReverse, outReverse)
  }

  /**
   * The CRC-32 override of the polynomial setter: the right-shifting engine
   * needs the polynomial bit-reflected, so the setter stores the reflection
   * of its argument, from which the argument can be read back.
   */
  function Crc32SetPolynom(p: CrcParams<bv32>, polynom: bv32): (r: CrcParams<bv32>)
    ensures Reflect32(r.polynom) == polynom
    ensures r.base == p.base && r.finalXor == p.finalXor
    ensures r.inReverse == p.inReverse && r.outReverse == p.outReverse
  {
    Reflect32Involutive(polynom);
    p.SetPolynom(Reflect32(polynom))
  }

  /**
   * The CRC-32 constructor: the record is first built from the raw
   * arguments, then the polynomial is replaced through `Crc32SetPolynom`,
   * so it is reflected exactly once.
   */
  function NewCrc32(polynom: bv32, base: bv32 := 0, finalXor: bv32 := 0,
                    inReverse: bool := false, outReverse: bool := false): (p: CrcParams<bv32>)
    ensures p.polynom == Reflect32(polynom) && Reflect32(p.polynom) == polynom
    ensures p.base == base && p.finalXor == finalXor
    ensures p.inReverse == inReverse && p.outReverse == outReverse
  {
    Crc32SetPolynom(CrcParams(polynom, base, finalXor, inReverse, outReverse), polynom)
  }

  /** The closed family of checksum algorithms the driver can run. */
  datatype Algorithm =
    | Xor
    | Crc8(p8: CrcParams<bv8>)
    | Crc16(p16: CrcParams<bv16>)
    | Crc32(p32: CrcParams<bv32>)

  /** The four presets. */
  const XOR: Algorithm := Xor
  const CRC8: Algorithm := Crc8(NewCrc8(0x07))
  const CRC16: Algorithm := Crc16(NewCrc16(0x8005))
  const CRC32: Algorithm := Crc32(NewCrc32(0x04C1_1DB7, 0xFFFF_FFFF, 0xFFFF_FFFF, true, true))

  // ---------------------------------------------------------------------
  // XOR

  function XorAccumulate(acc: bv32, value: bv8): bv32
  {
    acc ^ value as bv32
  }

  // ---------------------------------------------------------------------
  // CRC-8: left-shifting, the byte folded into bits 0..7, masked to 8 bits.

  /** One pass of the shift loop: shift, feed back the polynomial if bit 7 was set, mask. */
  function Crc8Round(acc: bv32, poly: bv8): (r: bv32)
    ensures r < 0x100
  {
    (if acc & 0x80 != 0 then (acc << 1) ^ poly as bv32 else acc << 1) & 0xFF
  }

  function Crc8Rounds(acc: bv32, poly: bv8, n: nat): (r: bv32)
    ensures 0 < n ==> r < 0x100
    decreases n
  {
    if n == 0 then acc else Crc8Rounds(Crc8Round(acc, poly), poly, n - 1)
  }

  /**
   * The byte, reflected when `inReverse` is set, enters bits 0..7: what is
   * XOR-ed in is the byte itself, or a byte whose bit mirror is the input
   * byte, and bits 8..31 are untouched.
   */
  function Crc8ByteIn(inReverse: bool, acc: bv32, value: bv8): (r: bv32)
    ensures r >> 8 == acc >> 8
    ensures inReverse ==> MirrorByte((r ^ acc) as bv8) == value
    ensures !inReverse ==> (r ^ acc) as bv8 == value
  {
    MirrorOfReverse8(value);
    acc ^ (if inReverse then Reverse8(value) else value) as bv32
  }

  /** The byte enters the register; eight passes follow. */
  function Crc8Accumulate(p: CrcParams<bv8>, acc: bv32, value: bv8): (r: bv32)
    ensures r < 0x100
  {
    Crc8Rounds(Crc8ByteIn(p.inReverse, acc, value), p.polynom, 8)
  }

  /** Reflect the low byte when `outReverse` is set, XOR the final mask, keep 8 bits. */
  function Crc8Final(p: CrcParams<bv8>, acc: bv32): (r: bv32)
    ensures r < 0x100
  {
    var a := if p.outReverse then Reverse8(NthByte(0, acc as bv64)) as bv32 else acc;
    (a ^ p.finalXor as bv32) & 0xFF
  }

  // ---------------------------------------------------------------------
  // CRC-16: left-shifting, the byte folded into bits 8..15, masked to 16 bits.

  function Crc16Round(acc: bv32, poly: bv16): (r: bv32)
    ensures r < 0x1_0000
  {
    (if acc & 0x8000 != 0 then (acc << 1) ^ poly as bv32 else acc << 1) & 0xFFFF
  }

  function Crc16Rounds(acc: bv32, poly: bv16, n: nat): (r: bv32)
    ensures 0 < n ==> r < 0x1_0000
    decreases n
  {
    if n == 0 then acc else Crc16Rounds(Crc16Round(acc, poly), poly, n - 1)
  }

  /**
   * The byte, reflected when `inReverse` is set, enters bits 8..15; bits
   * 0..7 and 16..31 are untouched.
   */
  function Crc16ByteIn(inReverse: bool, acc: bv32, value: bv8): (r: bv32)
    ensures r & 0xFFFF_00FF == acc & 0xFFFF_00FF
    ensures inReverse ==> MirrorByte(((r ^ acc) >> 8) as bv8) == value
    ensures !inReverse ==> ((r ^ acc) >> 8) as bv8 == value
  {
    MirrorOfReverse8(value);
    acc ^ ((if inReverse then Reverse8(value) else value) as bv32 << 8)
  }

  function Crc16Accumulate(p: CrcParams<bv16>, acc: bv32, value: bv8): (r: bv32)
    ensures r < 0x1_0000
  {
    Crc16Rounds(Crc16ByteIn(p.inReverse, acc, value), p.polynom, 8)
  }

  /** Mirror the low 16 bits when `outReverse` is set, XOR the final mask, keep 16 bits. */
  function Crc16Final(p: CrcParams<bv16>, acc: bv32): (r: bv32)
    ensures r < 0x1_0000
  {
    var a := if p.outReverse then Reflect16(acc) else acc;
    (a ^ p.finalXor as bv32) & 0xFFFF
  }

  // ---------------------------------------------------------------------
  // CRC-32: right-shifting over the reflected register and polynomial. The
  // byte is reflected, and the result mirrored, when the flags are CLEAR:
  // in the reflected domain the natural sense of both tests is inverted.

  /** One branchless pass: `(acc >> 1) ^ (poly & -(acc & 1))`. */
  function Crc32Round(acc: bv32, poly: bv32): bv32
  {
    (acc >> 1) ^ (poly & -(acc & 1))
  }

  function Crc32Rounds(acc: bv32, poly: bv32, n: nat): bv32
    decreases n
  {
    if n == 0 then acc else Crc32Rounds(Crc32Round(acc, poly), poly, n - 1)
  }

  /** The byte enters bits 0..7, reflected when `inReverse` is CLEAR; bits 8..31 are untouched. */
  function Crc32ByteIn(inReverse: bool, acc: bv32, value: bv8): (r: bv32)
    ensures r >> 8 == acc >> 8
    ensures !inReverse ==> MirrorByte((r ^ acc) as bv8) == value
    ensures inReverse ==> (r ^ acc) as bv8 == value
  {
    MirrorOfReverse8(value);
    acc ^ (if !inReverse then Reverse8(value) else value) as bv32
  }

  function Crc32Accumulate(p: CrcParams<bv32>, acc: bv32, value: bv8): bv32
  {
    Crc32Rounds(Crc32ByteIn(p.inReverse, acc, value), p.polynom, 8)
  }

  /**
   * Mirror the register when `outReverse` is CLEAR, then XOR the final mask.
   * The transform loses nothing: the register can be recovered from the result.
   */
  function Crc32Final(p: CrcParams<bv32>, acc: bv32): (r: bv32)
    ensures !p.outReverse ==> Reflect32(r ^ p.finalXor) == acc
    ensures p.outReverse ==> r ^ p.finalXor == acc
  {
    Reflect32Involutive(acc);
    var a := if !p.outReverse then Reflect32(acc) else acc;
    a ^ p.finalXor
  }

  // ---------------------------------------------------------------------
  // The protocol, dispatched over the closed family.

  /** `setBase`: zero unless the variant defines a base value. */
  function Base(a: Algorithm): bv32
  {
    match a
    case Xor => 0
    case Crc8(p) => p.base as bv32
    case Crc16(p) => p.base as bv32
    case Crc32(p) => p.base
  }

  /** `accumulate(acc, value)`: fold one byte into the register. */
  function Accumulate(a: Algorithm, acc: bv32, value: bv8): bv32
  {
    match a
    case Xor => XorAccumulate(acc, value)
    case Crc8(p) => Crc8Accumulate(p, acc, value)
    case Crc16(p) => Crc16Accumulate(p, acc, value)
    case Crc32(p) => Crc32Accumulate(p, acc, value)
  }

  /**
   * `accumulate(acc, value, count)`: the position-aware entry point. No
   * variant overrides the default, which ignores the position.
   */
  function AccumulateAt(a: Algorithm, acc: bv32, value: bv8, count: nat): bv32
  {
    Accumulate(a, acc, value)
  }

  /** `setFinal`: the output transform; the default leaves the register alone. */
  function Final(a: Algorithm, acc: bv32): bv32
  {
    match a
    case Xor => acc
    case Crc8(p) => Crc8Final(p, acc)
    case Crc16(p) => Crc16Final(p, acc)
    case Crc32(p) => Crc32Final(p, acc)
  }
}
