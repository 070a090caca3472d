/**
 * Reference definitions of the same CRCs written the way CRC catalogues
 * describe them (the parameter model of Ross Williams' "Painless Guide to
 * CRC Error Detection Algorithms": width, poly, init, refin, refout,
 * xorout), with the theorem that each engine computes its reference.
 */
module Catalog {
  import opened BitOps
  import opened Algorithms
  import opened Driver

  // ---------------------------------------------------------------------
  // CRC-32: the catalogue's most-significant-bit-first register.

  /** One step of the textbook shift register: shift left, feed back on a carry out of bit 31. */
  function MsbRound32(r: bv32, poly: bv32): bv32
  {
    if r & 0x8000_0000 != 0 then (r << 1) ^ poly else r << 1
  }

  function MsbRounds32(r: bv32, poly: bv32, n: nat): bv32
    decreases n
  {
    if n == 0 then r else MsbRounds32(MsbRound32(r, poly), poly, n - 1)
  }

  /** A byte enters the top of the register, reflected first when `refin`. */
  function MsbByteIn32(refin: bool, r: bv32, b: bv8): bv32
  {
    r ^ ((if refin then Reverse8(b) else b) as bv32 << 24)
  }

  function MsbAccumulate32(poly: bv32, refin: bool, r: bv32, b: bv8): bv32
  {
    MsbRounds32(MsbByteIn32(refin, r, b), poly, 8)
  }

  function MsbFold32(poly: bv32, refin: bool, r: bv32, s: seq<bv8>): bv32
    decreases s
  {
    if |s| == 0 then r else MsbFold32(poly, refin, MsbAccumulate32(poly, refin, r, s[0]), s[1..])
  }

  /** The catalogue CRC-32 of `s` under the six Williams parameters. */
  function CatalogCrc32(poly: bv32, init: bv32, refin: bool, refout: bool, xorout: bv32, s: seq<bv8>): bv32
  {
    var m := MsbFold32(poly, refin, init, s);
    (if refout then Reflect32(m) else m) ^ xorout
  }

  /** The branchless round picks the polynomial exactly when bit 0 is set. */
  lemma Crc32RoundBranching(acc: bv32, poly: bv32)
    ensures Crc32Round(acc, poly) == if acc & 1 == 1 then (acc >> 1) ^ poly else acc >> 1
  {
    if acc & 1 == 1 {
      assert -(acc & 1) == 0xFFFF_FFFF;
    } else {
      assert -(acc & 1) == 0;
    }
  }

  /**
   * A right-shifting round on the mirrored register is the mirror of a
   * left-shifting round under the mirrored polynomial.
   */
  lemma MirrorRound(r: bv32, poly: bv32)
    ensures Crc32Round(Reflect32(r), poly) == Reflect32(MsbRound32(r, Reflect32(poly)))
  {
    Crc32RoundBranching(Reflect32(r), poly);
    Reflect32Shift(r);
    Reflect32TopBit(r);
    if r & 0x8000_0000 != 0 {
      Reflect32Xor(r << 1, Reflect32(poly));
      Reflect32Involutive(poly);
    }
  }

  /** The whole shift loop, by induction on the passes. */
  lemma {:induction false} MirrorRounds(r: bv32, poly: bv32, n: nat)
    ensures Crc32Rounds(Reflect32(r), poly, n) == Reflect32(MsbRounds32(r, Reflect32(poly), n))
    decreases n
  {
    if n > 0 {
      MirrorRound(r, poly);
      MirrorRounds(MsbRound32(r, Reflect32(poly)), poly, n - 1);
    }
  }

  /**
   * Where the byte enters: bits 24..31 of the catalogue register are bits
   * 0..7 of the mirrored one, reversed.
   */
  lemma MirrorXorIn(m: bv32, u: bv8)
    ensures Reflect32(m ^ ((u as bv32) << 24)) == Reflect32(m) ^ Reverse8(u) as bv32
  {
    Reflect32Xor(m, (u as bv32) << 24);
    Reflect32TopByte(u);
  }

  /**
   * One engine accumulate on the mirrored register is the mirror of one
   * catalogue accumulate, whose polynomial is the mirror of the stored one.
   * The engine reflects the byte exactly when the catalogue does not, since
   * the byte enters the mirrored register reversed.
   */
  lemma {:induction false} MirrorAccumulate(p: CrcParams<bv32>, m: bv32, b: bv8)
    ensures Crc32Accumulate(p, Reflect32(m), b) ==
            Reflect32(MsbAccumulate32(Reflect32(p.polynom), p.inReverse, m, b))
  {
    MirrorByteIn(p.inReverse, m, b);
    MirrorRounds(MsbByteIn32(p.inReverse, m, b), p.polynom, 8);
  }

  /** The engine's byte entry, on the mirrored register, is the mirror of the catalogue's. */
  lemma MirrorByteIn(inReverse: bool, m: bv32, b: bv8)
    ensures Crc32ByteIn(inReverse, Reflect32(m), b) == Reflect32(MsbByteIn32(inReverse, m, b))
  {
    if inReverse {
      MirrorByteInReflected(m, b);
    } else {
      MirrorByteInPlain(m, b);
    }
  }

  /** `refin` set: the catalogue reverses the byte, so the engine takes it as it is. */
  lemma MirrorByteInReflected(m: bv32, b: bv8)
    ensures Crc32ByteIn(true, Reflect32(m), b) == Reflect32(MsbByteIn32(true, m, b))
  {
    MirrorXorInReversed(m, b);
  }

  lemma MirrorXorInReversed(m: bv32, b: bv8)
    ensures Reflect32(m ^ ((Reverse8(b) as bv32) << 24)) == Reflect32(m) ^ b as bv32
  {
    MirrorXorIn(m, Reverse8(b));
    Reverse8Involutive(b);
  }

  /** `refin` clear: the catalogue takes the byte as it is, so the engine reverses it. */
  lemma MirrorByteInPlain(m: bv32, b: bv8)
    ensures Crc32ByteIn(false, Reflect32(m), b) == Reflect32(MsbByteIn32(false, m, b))
  {
    MirrorXorIn(m, b);
  }

  lemma {:induction false} MirrorFold(p: CrcParams<bv32>, m: bv32, s: seq<bv8>)
    ensures Fold(Crc32(p), Reflect32(m), s) == Reflect32(MsbFold32(Reflect32(p.polynom), p.inReverse, m, s))
    decreases s
  {
    if |s| > 0 {
      MirrorAccumulate(p, m, s[0]);
      MirrorFold(p, MsbAccumulate32(Reflect32(p.polynom), p.inReverse, m, s[0]), s[1..]);
    }
  }

  /**
   * The CRC-32 engine computes the catalogue CRC-32 whose polynomial is the
   * one given to the constructor, whose `refin` and `refout` are the two
   * flags, whose `xorout` is the final mask, and whose `init` is the
   * mirror of the base value.
   */
  lemma {:induction false} Crc32IsCatalog(p: CrcParams<bv32>, s: seq<bv8>)
    ensures Digest(Crc32(p), s) ==
            CatalogCrc32(Reflect32(p.polynom), Reflect32(p.base), p.inReverse, p.outReverse, p.finalXor, s)
  {
    if p.outReverse {
      Crc32IsCatalogKept(p, s);
    } else {
      Crc32IsCatalogMirrored(p, s);
    }
  }

  /** With `outReverse` set, the engine leaves its mirrored register as it is: the catalogue reflects its output. */
  lemma {:induction false} Crc32IsCatalogKept(p: CrcParams<bv32>, s: seq<bv8>)
    requires p.outReverse
    ensures Digest(Crc32(p), s) ==
            CatalogCrc32(Reflect32(p.polynom), Reflect32(p.base), p.inReverse, p.outReverse, p.finalXor, s)
  {
    MirrorFoldFromBase(p, s);
  }

  /** With `outReverse` clear, the engine mirrors its register back: the catalogue does not reflect. */
  lemma {:induction false} Crc32IsCatalogMirrored(p: CrcParams<bv32>, s: seq<bv8>)
    requires !p.outReverse
    ensures Digest(Crc32(p), s) ==
            CatalogCrc32(Reflect32(p.polynom), Reflect32(p.base), p.inReverse, p.outReverse, p.finalXor, s)
  {
    MirrorFoldFromBase(p, s);
    Reflect32Involutive(MsbFold32(Reflect32(p.polynom), p.inReverse, Reflect32(p.base), s));
  }

  /** The engine's register after `s`, started from the base, is the mirror of the catalogue's. */
  lemma {:induction false} MirrorFoldFromBase(p: CrcParams<bv32>, s: seq<bv8>)
    ensures Fold(Crc32(p), p.base, s) == Reflect32(MsbFold32(Reflect32(p.polynom), p.inReverse, Reflect32(p.base), s))
  {
    Reflect32Involutive(p.base);
    MirrorFold(p, Reflect32(p.base), s);
  }

  /** The same through the constructor: the polynomial is passed in its usual form. */
  lemma {:induction false} NewCrc32IsCatalog(polynom: bv32, base: bv32, finalXor: bv32, inReverse: bool, outReverse: bool, s: seq<bv8>)
    ensures Digest(Crc32(NewCrc32(polynom, base, finalXor, inReverse, outReverse)), s) ==
            CatalogCrc32(polynom, Reflect32(base), inReverse, outReverse, finalXor, s)
  {
    Crc32IsCatalog(NewCrc32(polynom, base, finalXor, inReverse, outReverse), s);
  }

  /**
   * The preset is CRC-32/ISO-HDLC (the CRC of IEEE 802.3, zlib and PKZIP):
   * poly 0x04C11DB7, init and xorout 0xFFFFFFFF, both reflections.
   */
  lemma {:induction false} Crc32PresetIsIsoHdlc(s: seq<bv8>)
    ensures Digest(CRC32, s) == CatalogCrc32(0x04C1_1DB7, 0xFFFF_FFFF, true, true, 0xFFFF_FFFF, s)
  {
    NewCrc32IsCatalog(0x04C1_1DB7, 0xFFFF_FFFF, 0xFFFF_FFFF, true, true, s);
    assert Reflect32(0xFFFF_FFFF) == 0xFFFF_FFFF;
  }

  // ---------------------------------------------------------------------
  // CRC-8 and CRC-16: the engines keep the narrow register in the low bits
  // of the 32-bit accumulator, the bits above it clear.

  // ---------------------------------------------------------------------
  // CRC-8: an 8-bit register shifting left.

  function MsbRound8(r: bv8, poly: bv8): bv8
  {
    if r & 0x80 != 0 then (r << 1) ^ poly else r << 1
  }

  function MsbRounds8(r: bv8, poly: bv8, n: nat): bv8
    decreases n
  {
    if n == 0 then r else MsbRounds8(MsbRound8(r, poly), poly, n - 1)
  }

  /** The byte enters the whole register, reflected first when `refin`. */
  function MsbByteIn8(refin: bool, r: bv8, b: bv8): bv8
  {
    r ^ (if refin then Reverse8(b) else b)
  }

  function MsbAccumulate8(poly: bv8, refin: bool, r: bv8, b: bv8): bv8
  {
    MsbRounds8(MsbByteIn8(refin, r, b), poly, 8)
  }

  function MsbFold8(poly: bv8, refin: bool, r: bv8, s: seq<bv8>): bv8
    decreases s
  {
    if |s| == 0 then r else MsbFold8(poly, refin, MsbAccumulate8(poly, refin, r, s[0]), s[1..])
  }

  /** The catalogue CRC-8 of `s` under the six Williams parameters. */
  function CatalogCrc8(poly: bv8, init: bv8, refin: bool, refout: bool, xorout: bv8, s: seq<bv8>): bv8
  {
    var m := MsbFold8(poly, refin, init, s);
    (if refout then Reverse8(m) else m) ^ xorout
  }

  /** On a register held in the low byte, the engine's masked round is the 8-bit round. */
  lemma Crc8RoundAgrees(r: bv8, poly: bv8)
    ensures Crc8Round(Widen8(r), poly) == Widen8(MsbRound8(r, poly))
  {
    if r & 0x80 != 0 {
      Crc8RoundCarry(r, poly);
      MsbRound8Carry(r, poly);
    } else {
      Crc8RoundNoCarry(r, poly);
      MsbRound8NoCarry(r, poly);
    }
  }

  lemma Crc8RoundCarry(r: bv8, poly: bv8)
    requires r & 0x80 != 0
    ensures Crc8Round(Widen8(r), poly) == Widen8((r << 1) ^ poly)
  {
  }

  lemma Crc8RoundNoCarry(r: bv8, poly: bv8)
    requires r & 0x80 == 0
    ensures Crc8Round(Widen8(r), poly) == Widen8(r << 1)
  {
  }

  lemma MsbRound8Carry(r: bv8, poly: bv8)
    requires r & 0x80 != 0
    ensures MsbRound8(r, poly) == (r << 1) ^ poly
  {
  }

  lemma MsbRound8NoCarry(r: bv8, poly: bv8)
    requires r & 0x80 == 0
    ensures MsbRound8(r, poly) == r << 1
  {
  }

  lemma {:induction false} Crc8RoundsAgree(r: bv8, poly: bv8, n: nat)
    ensures Crc8Rounds(Widen8(r), poly, n) == Widen8(MsbRounds8(r, poly, n))
    decreases n
  {
    if n > 0 {
      Crc8RoundAgrees(r, poly);
      Crc8RoundsAgree(MsbRound8(r, poly), poly, n - 1);
    }
  }

  /** The engine's byte entry on the held register is the catalogue's. */
  lemma Crc8ByteInAgrees(inReverse: bool, r: bv8, b: bv8)
    ensures Crc8ByteIn(inReverse, Widen8(r), b) == Widen8(MsbByteIn8(inReverse, r, b))
  {
    if inReverse {
      Crc8ByteInReflected(r, b);
    } else {
      Crc8ByteInPlain(r, b);
    }
  }

  lemma Crc8ByteInReflected(r: bv8, b: bv8)
    ensures Crc8ByteIn(true, Widen8(r), b) == Widen8(MsbByteIn8(true, r, b))
  {
    Crc8ByteInTaken(true, Widen8(r), b);
    MsbByteIn8Taken(true, r, b);
    Crc8XorAgrees(r, Reverse8(b));
  }

  lemma Crc8ByteInPlain(r: bv8, b: bv8)
    ensures Crc8ByteIn(false, Widen8(r), b) == Widen8(MsbByteIn8(false, r, b))
  {
    Crc8ByteInTaken(false, Widen8(r), b);
    MsbByteIn8Taken(false, r, b);
    Crc8XorAgrees(r, b);
  }

  /** The byte the engine folds in: reversed exactly when the flag is set. */
  lemma Crc8ByteInTaken(inReverse: bool, acc: bv32, b: bv8)
    ensures inReverse ==> Crc8ByteIn(inReverse, acc, b) == acc ^ Reverse8(b) as bv32
    ensures !inReverse ==> Crc8ByteIn(inReverse, acc, b) == acc ^ b as bv32
  {
  }

  lemma MsbByteIn8Taken(refin: bool, r: bv8, b: bv8)
    ensures refin ==> MsbByteIn8(refin, r, b) == r ^ Reverse8(b)
    ensures !refin ==> MsbByteIn8(refin, r, b) == r ^ b
  {
  }

  lemma Crc8XorAgrees(r: bv8, v: bv8)
    ensures Widen8(r) ^ v as bv32 == Widen8(r ^ v)
  {
  }

  lemma {:induction false} Crc8AccumulateAgrees(p: CrcParams<bv8>, r: bv8, b: bv8)
    ensures Crc8Accumulate(p, Widen8(r), b) == Widen8(MsbAccumulate8(p.polynom, p.inReverse, r, b))
  {
    Crc8ByteInAgrees(p.inReverse, r, b);
    Crc8RoundsAgree(MsbByteIn8(p.inReverse, r, b), p.polynom, 8);
  }

  lemma {:induction false} Crc8FoldAgrees(p: CrcParams<bv8>, r: bv8, s: seq<bv8>)
    ensures Fold(Crc8(p), Widen8(r), s) == Widen8(MsbFold8(p.polynom, p.inReverse, r, s))
    decreases s
  {
    if |s| > 0 {
      Crc8AccumulateAgrees(p, r, s[0]);
      Crc8FoldAgrees(p, MsbAccumulate8(p.polynom, p.inReverse, r, s[0]), s[1..]);
    }
  }

  /**
   * The CRC-8 engine computes the catalogue CRC-8 whose parameters are the
   * record's, unchanged: the register is never mirrored.
   */
  lemma {:induction false} Crc8IsCatalog(p: CrcParams<bv8>, s: seq<bv8>)
    ensures Digest(Crc8(p), s) ==
            Widen8(CatalogCrc8(p.polynom, p.base, p.inReverse, p.outReverse, p.finalXor, s))
  {
    if p.outReverse {
      Crc8IsCatalogReflected(p, s);
    } else {
      Crc8IsCatalogPlain(p, s);
    }
  }

  lemma {:induction false} Crc8IsCatalogReflected(p: CrcParams<bv8>, s: seq<bv8>)
    requires p.outReverse
    ensures Digest(Crc8(p), s) ==
            Widen8(CatalogCrc8(p.polynom, p.base, p.inReverse, p.outReverse, p.finalXor, s))
  {
    Crc8FoldAgrees(p, p.base, s);
    Crc8FinalReflected(p, MsbFold8(p.polynom, p.inReverse, p.base, s));
    CatalogCrc8Reflected(p.polynom, p.base, p.inReverse, p.finalXor, s);
  }

  lemma {:induction false} Crc8IsCatalogPlain(p: CrcParams<bv8>, s: seq<bv8>)
    requires !p.outReverse
    ensures Digest(Crc8(p), s) ==
            Widen8(CatalogCrc8(p.polynom, p.base, p.inReverse, p.outReverse, p.finalXor, s))
  {
    Crc8FoldAgrees(p, p.base, s);
    Crc8FinalPlain(p, MsbFold8(p.polynom, p.inReverse, p.base, s));
    CatalogCrc8Plain(p.polynom, p.base, p.inReverse, p.finalXor, s);
  }

  /** With `outReverse` set, the final phase reverses the held byte and applies the mask. */
  lemma Crc8FinalReflected(p: CrcParams<bv8>, m: bv8)
    requires p.outReverse
    ensures Crc8Final(p, Widen8(m)) == Widen8(Reverse8(m) ^ p.finalXor)
  {
    Crc8LowByte(m);
  }

  lemma Crc8FinalPlain(p: CrcParams<bv8>, m: bv8)
    requires !p.outReverse
    ensures Crc8Final(p, Widen8(m)) == Widen8(m ^ p.finalXor)
  {
  }

  /** Byte 0 of a held register is the register. */
  lemma Crc8LowByte(m: bv8)
    ensures NthByte(0, Widen8(m) as bv64) == m
  {
  }

  lemma CatalogCrc8Reflected(poly: bv8, init: bv8, refin: bool, xorout: bv8, s: seq<bv8>)
    ensures CatalogCrc8(poly, init, refin, true, xorout, s) == Reverse8(MsbFold8(poly, refin, init, s)) ^ xorout
  {
  }

  lemma CatalogCrc8Plain(poly: bv8, init: bv8, refin: bool, xorout: bv8, s: seq<bv8>)
    ensures CatalogCrc8(poly, init, refin, false, xorout, s) == MsbFold8(poly, refin, init, s) ^ xorout
  {
  }

  /** The preset is CRC-8/SMBUS: poly 0x07, init 0, no reflection, xorout 0. */
  lemma {:induction false} Crc8PresetIsSmbus(s: seq<bv8>)
    ensures Digest(CRC8, s) == Widen8(CatalogCrc8(0x07, 0, false, false, 0, s))
  {
    Crc8IsCatalog(NewCrc8(0x07), s);
  }

  // ---------------------------------------------------------------------
  // CRC-16: a 16-bit register shifting left, each byte entering its top.

  function MsbRound16(r: bv16, poly: bv16): bv16
  {
    if r & 0x8000 != 0 then (r << 1) ^ poly else r << 1
  }

  function MsbRounds16(r: bv16, poly: bv16, n: nat): bv16
    decreases n
  {
    if n == 0 then r else MsbRounds16(MsbRound16(r, poly), poly, n - 1)
  }

  /** The byte enters the top byte of the register, reflected first when `refin`. */
  function MsbByteIn16(refin: bool, r: bv16, b: bv8): bv16
  {
    r ^ ((if refin then Reverse8(b) else b) as bv16 << 8)
  }

  function MsbAccumulate16(poly: bv16, refin: bool, r: bv16, b: bv8): bv16
  {
    MsbRounds16(MsbByteIn16(refin, r, b), poly, 8)
  }

  function MsbFold16(poly: bv16, refin: bool, r: bv16, s: seq<bv8>): bv16
    decreases s
  {
    if |s| == 0 then r else MsbFold16(poly, refin, MsbAccumulate16(poly, refin, r, s[0]), s[1..])
  }

  /** The 16-bit reflection, bit by bit through the byte mirror: bit i moves to bit 15 - i. */
  function Reverse16(r: bv16): bv16
  {
    (MirrorByte((r & 0xFF) as bv8) as bv16 << 8) | MirrorByte((r >> 8) as bv8) as bv16
  }

  /** The catalogue CRC-16 of `s` under the six Williams parameters. */
  function CatalogCrc16(poly: bv16, init: bv16, refin: bool, refout: bool, xorout: bv16, s: seq<bv8>): bv16
  {
    var m := MsbFold16(poly, refin, init, s);
    (if refout then Reverse16(m) else m) ^ xorout
  }

  /** On a register held in the low half-word, the engine's masked round is the 16-bit round. */
  lemma Crc16RoundAgrees(r: bv16, poly: bv16)
    ensures Crc16Round(Widen16(r), poly) == Widen16(MsbRound16(r, poly))
  {
    if r & 0x8000 != 0 {
      Crc16RoundCarry(r, poly);
      MsbRound16Carry(r, poly);
    } else {
      Crc16RoundNoCarry(r, poly);
      MsbRound16NoCarry(r, poly);
    }
  }

  lemma Crc16RoundCarry(r: bv16, poly: bv16)
    requires r & 0x8000 != 0
    ensures Crc16Round(Widen16(r), poly) == Widen16((r << 1) ^ poly)
  {
  }

  lemma Crc16RoundNoCarry(r: bv16, poly: bv16)
    requires r & 0x8000 == 0
    ensures Crc16Round(Widen16(r), poly) == Widen16(r << 1)
  {
  }

  lemma MsbRound16Carry(r: bv16, poly: bv16)
    requires r & 0x8000 != 0
    ensures MsbRound16(r, poly) == (r << 1) ^ poly
  {
  }

  lemma MsbRound16NoCarry(r: bv16, poly: bv16)
    requires r & 0x8000 == 0
    ensures MsbRound16(r, poly) == r << 1
  {
  }

  lemma {:induction false} Crc16RoundsAgree(r: bv16, poly: bv16, n: nat)
    ensures Crc16Rounds(Widen16(r), poly, n) == Widen16(MsbRounds16(r, poly, n))
    decreases n
  {
    if n > 0 {
      Crc16RoundAgrees(r, poly);
      Crc16RoundsAgree(MsbRound16(r, poly), poly, n - 1);
    }
  }

  /** The engine's byte entry on the held register is the catalogue's. */
  lemma Crc16ByteInAgrees(inReverse: bool, r: bv16, b: bv8)
    ensures Crc16ByteIn(inReverse, Widen16(r), b) == Widen16(MsbByteIn16(inReverse, r, b))
  {
    if inReverse {
      Crc16ByteInReflected(r, b);
    } else {
      Crc16ByteInPlain(r, b);
    }
  }

  lemma Crc16ByteInReflected(r: bv16, b: bv8)
    ensures Crc16ByteIn(true, Widen16(r), b) == Widen16(MsbByteIn16(true, r, b))
  {
    Crc16ByteInTaken(true, Widen16(r), b);
    MsbByteIn16Taken(true, r, b);
    Crc16XorAgrees(r, Reverse8(b));
  }

  lemma Crc16ByteInPlain(r: bv16, b: bv8)
    ensures Crc16ByteIn(false, Widen16(r), b) == Widen16(MsbByteIn16(false, r, b))
  {
    Crc16ByteInTaken(false, Widen16(r), b);
    MsbByteIn16Taken(false, r, b);
    Crc16XorAgrees(r, b);
  }

  lemma Crc16ByteInTaken(inReverse: bool, acc: bv32, b: bv8)
    ensures inReverse ==> Crc16ByteIn(inReverse, acc, b) == acc ^ (Reverse8(b) as bv32 << 8)
    ensures !inReverse ==> Crc16ByteIn(inReverse, acc, b) == acc ^ (b as bv32 << 8)
  {
  }

  lemma MsbByteIn16Taken(refin: bool, r: bv16, b: bv8)
    ensures refin ==> MsbByteIn16(refin, r, b) == r ^ (Reverse8(b) as bv16 << 8)
    ensures !refin ==> MsbByteIn16(refin, r, b) == r ^ (b as bv16 << 8)
  {
  }

  lemma Crc16XorAgrees(r: bv16, v: bv8)
    ensures Widen16(r) ^ (v as bv32 << 8) == Widen16(r ^ (v as bv16 << 8))
  {
  }

  lemma {:induction false} Crc16AccumulateAgrees(p: CrcParams<bv16>, r: bv16, b: bv8)
    ensures Crc16Accumulate(p, Widen16(r), b) == Widen16(MsbAccumulate16(p.polynom, p.inReverse, r, b))
  {
    Crc16ByteInAgrees(p.inReverse, r, b);
    Crc16RoundsAgree(MsbByteIn16(p.inReverse, r, b), p.polynom, 8);
  }

  lemma {:induction false} Crc16FoldAgrees(p: CrcParams<bv16>, r: bv16, s: seq<bv8>)
    ensures Fold(Crc16(p), Widen16(r), s) == Widen16(MsbFold16(p.polynom, p.inReverse, r, s))
    decreases s
  {
    if |s| > 0 {
      Crc16AccumulateAgrees(p, r, s[0]);
      Crc16FoldAgrees(p, MsbAccumulate16(p.polynom, p.inReverse, r, s[0]), s[1..]);
    }
  }

  /**
   * The CRC-16 engine computes the catalogue CRC-16 whose parameters are the
   * record's, unchanged.
   */
  lemma {:induction false} Crc16IsCatalog(p: CrcParams<bv16>, s: seq<bv8>)
    ensures Digest(Crc16(p), s) ==
            Widen16(CatalogCrc16(p.polynom, p.base, p.inReverse, p.outReverse, p.finalXor, s))
  {
    if p.outReverse {
      Crc16IsCatalogReflected(p, s);
    } else {
      Crc16IsCatalogPlain(p, s);
    }
  }

  lemma {:induction false} Crc16IsCatalogReflected(p: CrcParams<bv16>, s: seq<bv8>)
    requires p.outReverse
    ensures Digest(Crc16(p), s) ==
            Widen16(CatalogCrc16(p.polynom, p.base, p.inReverse, p.outReverse, p.finalXor, s))
  {
    Crc16FoldAgrees(p, p.base, s);
    Crc16FinalReflected(p, MsbFold16(p.polynom, p.inReverse, p.base, s));
    CatalogCrc16Reflected(p.polynom, p.base, p.inReverse, p.finalXor, s);
  }

  lemma {:induction false} Crc16IsCatalogPlain(p: CrcParams<bv16>, s: seq<bv8>)
    requires !p.outReverse
    ensures Digest(Crc16(p), s) ==
            Widen16(CatalogCrc16(p.polynom, p.base, p.inReverse, p.outReverse, p.finalXor, s))
  {
    Crc16FoldAgrees(p, p.base, s);
    Crc16FinalPlain(p, MsbFold16(p.polynom, p.inReverse, p.base, s));
    CatalogCrc16Plain(p.polynom, p.base, p.inReverse, p.finalXor, s);
  }

  /** With `outReverse` set, the final phase mirrors the held half-word and applies the mask. */
  lemma Crc16FinalReflected(p: CrcParams<bv16>, m: bv16)
    requires p.outReverse
    ensures Crc16Final(p, Widen16(m)) == Widen16(Reverse16(m) ^ p.finalXor)
  {
    Reflect16OfHeld(m);
  }

  lemma Crc16FinalPlain(p: CrcParams<bv16>, m: bv16)
    requires !p.outReverse
    ensures Crc16Final(p, Widen16(m)) == Widen16(m ^ p.finalXor)
  {
  }

  /** The engine's output reflection of a held register is the catalogue's 16-bit reflection. */
  lemma Reflect16OfHeld(m: bv16)
    ensures Reflect16(Widen16(m)) == Widen16(Reverse16(m))
  {
  }

  lemma CatalogCrc16Reflected(poly: bv16, init: bv16, refin: bool, xorout: bv16, s: seq<bv8>)
    ensures CatalogCrc16(poly, init, refin, true, xorout, s) == Reverse16(MsbFold16(poly, refin, init, s)) ^ xorout
  {
  }

  lemma CatalogCrc16Plain(poly: bv16, init: bv16, refin: bool, xorout: bv16, s: seq<bv8>)
    ensures CatalogCrc16(poly, init, refin, false, xorout, s) == MsbFold16(poly, refin, init, s) ^ xorout
  {
  }

  /** The preset is CRC-16/UMTS (also known as CRC-16/BUYPASS): poly 0x8005, init 0, no reflection, xorout 0. */
  lemma {:induction false} Crc16PresetIsUmts(s: seq<bv8>)
    ensures Digest(CRC16, s) == Widen16(CatalogCrc16(0x8005, 0, false, false, 0, s))
  {
    Crc16IsCatalog(NewCrc16(0x8005), s);
  }
}
