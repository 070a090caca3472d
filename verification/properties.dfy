/**
 * Properties the checksum library promises to its users: the XOR checksum
 * is the parity of the bytes, the value of the empty input, the width of
 * every digest, the constructor defaults and setter chains, and the
 * published check values of the presets.
 */
module Properties {
  import opened BitOps
  import opened Algorithms
  import opened Driver
  import opened Catalog

  // ---------------------------------------------------------------------
  // The XOR checksum.

  /** Reference: the exclusive or of all bytes, taken from the last byte backwards. */
  function Parity(s: seq<bv8>): bv8
    decreases s
  {
    if |s| == 0 then 0 else Parity(s[..|s| - 1]) ^ s[|s| - 1]
  }

  lemma WidenXor(x: bv8, y: bv8)
    ensures Widen8(x ^ y) == Widen8(x) ^ Widen8(y)
  {
  }

  lemma XorAccumulateWidens(acc: bv32, b: bv8)
    ensures Accumulate(Xor, acc, b) == acc ^ Widen8(b)
  {
  }

  /** Accumulating bytes with XOR folds in their parity. */
  lemma {:induction false} XorFold(acc: bv32, s: seq<bv8>)
    ensures Fold(Xor, acc, s) == acc ^ Widen8(Parity(s))
    decreases |s|
  {
    if |s| > 0 {
      var next := Accumulate(Xor, acc, s[0]);
      XorFold(next, s[1..]);
      ParityFront(s);
      XorFoldStep(acc, s[0], Parity(s[1..]));
    }
  }

  /** One byte XOR-ed in ahead of the rest: the parity takes it in. */
  lemma XorFoldStep(acc: bv32, b: bv8, p: bv8)
    ensures Accumulate(Xor, acc, b) ^ Widen8(p) == acc ^ Widen8(b ^ p)
  {
    XorAccumulateWidens(acc, b);
    WidenXor(b, p);
  }

  /** The parity of a non-empty sequence is its first byte XOR the parity of the rest. */
  lemma {:induction false} ParityFront(s: seq<bv8>)
    requires |s| > 0
    ensures Parity(s) == s[0] ^ Parity(s[1..])
    decreases |s|
  {
    var n := |s|;
    if n == 1 {
      assert s[..0] == [] && s[1..] == [];
    } else {
      var init := s[..n - 1];
      ParityFront(init);
      assert init[1..] == s[1..][..n - 2];
      assert init[0] == s[0] && s[1..][n - 2] == s[n - 1];
      ParityStep(s[0], Parity(init[1..]), s[n - 1]);
    }
  }

  lemma ParityStep(a: bv8, p: bv8, b: bv8)
    ensures (a ^ p) ^ b == a ^ (p ^ b)
  {
  }

  /** The XOR digest is the parity of the input, so it fits in a byte. */
  lemma XorDigestIsParity(s: seq<bv8>)
    ensures Digest(XOR, s) == Widen8(Parity(s))
    ensures Digest(XOR, s) < 0x100
  {
    XorFold(0, s);
  }

  /** The parity of a concatenation is the exclusive or of the parities. */
  lemma {:induction false} ParityAppend(xs: seq<bv8>, ys: seq<bv8>)
    ensures Parity(xs + ys) == Parity(xs) ^ Parity(ys)
    decreases |ys|
  {
    if |ys| == 0 {
      assert xs + ys == xs;
    } else {
      var init, last := ys[..|ys| - 1], ys[|ys| - 1];
      assert (xs + ys)[..|xs + ys| - 1] == xs + init;
      assert (xs + ys)[|xs + ys| - 1] == last;
      ParityAppend(xs, init);
    }
  }

  /** The parity depends only on which bytes occur, and how often. */
  lemma {:induction false} ParityOfMultiset(s: seq<bv8>, t: seq<bv8>)
    requires multiset(s) == multiset(t)
    ensures Parity(s) == Parity(t)
    decreases |s|
  {
    if |s| == 0 {
      assert |t| == |multiset(t)| == 0;
    } else {
      var init, x := s[..|s| - 1], s[|s| - 1];
      assert s == init + [x];
      assert x in multiset(t);
      var j :| 0 <= j < |t| && t[j] == x;
      var before, after := t[..j], t[j + 1..];
      assert t == before + [x] + after;
      MultisetRemove(init, x, before, after);
      ParityOfMultiset(init, before + after);
      ParityAppend(before + [x], after);
      ParityAppend(before, [x]);
      ParityAppend(before, after);
    }
  }

  /** Taking the same element out of two equal multisets leaves equal multisets. */
  lemma MultisetRemove(init: seq<bv8>, x: bv8, before: seq<bv8>, after: seq<bv8>)
    requires multiset(init + [x]) == multiset(before + [x] + after)
    ensures multiset(init) == multiset(before + after)
  {
    calc {
      multiset(init);
      multiset(init + [x]) - multiset{x};
      multiset(before + [x] + after) - multiset{x};
      { assert before + [x] + after == before + ([x] + after); }
      multiset(before) + multiset([x] + after) - multiset{x};
      multiset(before) + multiset(after);
      multiset(before + after);
    }
  }

  /** The XOR digest does not depend on the order of the bytes. */
  lemma XorOrderFree(s: seq<bv8>, t: seq<bv8>)
    requires multiset(s) == multiset(t)
    ensures Digest(XOR, s) == Digest(XOR, t)
  {
    XorDigestIsParity(s);
    XorDigestIsParity(t);
    ParityOfMultiset(s, t);
  }

  /** Any input followed by itself has XOR digest zero. */
  lemma XorSelfCancels(s: seq<bv8>)
    ensures Digest(XOR, s + s) == 0
  {
    XorDigestIsParity(s + s);
    ParityAppend(s, s);
  }

  /** Two complementary nibbles give a full byte. */
  lemma XorOfNibbles()
    ensures Digest(XOR, [0x0F, 0xF0]) == 0xFF
  {
    XorDigestIsParity([0x0F, 0xF0]);
    assert [0x0F, 0xF0][..1] == [0x0F];
  }

  // ---------------------------------------------------------------------
  // The empty input and the width of the digest.

  /** `setBase` loads the variant's base value zero-extended; XOR starts from zero. */
  lemma BaseLoads(a: Algorithm)
    ensures a.Xor? ==> Base(a) == 0
    ensures a.Crc8? ==> Base(a) == Widen8(a.p8.base)
    ensures a.Crc16? ==> Base(a) == Widen16(a.p16.base)
    ensures a.Crc32? ==> Base(a) == a.p32.base
  {
  }

  /**
   * With no bytes, the digest is the final phase applied to the base value;
   * every preset then gives zero (for CRC-32, all ones masked by all ones).
   */
  lemma EmptyInput(a: Algorithm)
    ensures Digest(a, []) == Final(a, Base(a))
    ensures a in {XOR, CRC8, CRC16, CRC32} ==> Digest(a, []) == 0
  {
    if a == CRC32 {
      Crc32PresetStored();
    }
  }

  /** After a first byte, the CRC-8 register stays within 8 bits. */
  lemma {:induction false} Crc8RegisterWidth(p: CrcParams<bv8>, acc: bv32, s: seq<bv8>)
    requires acc < 0x100 || |s| > 0
    ensures Fold(Crc8(p), acc, s) < 0x100
    decreases |s|
  {
    if |s| > 0 {
      Crc8RegisterWidth(p, Crc8Accumulate(p, acc, s[0]), s[1..]);
    }
  }

  /** After a first byte, the CRC-16 register stays within 16 bits. */
  lemma {:induction false} Crc16RegisterWidth(p: CrcParams<bv16>, acc: bv32, s: seq<bv8>)
    requires acc < 0x1_0000 || |s| > 0
    ensures Fold(Crc16(p), acc, s) < 0x1_0000
    decreases |s|
  {
    if |s| > 0 {
      Crc16RegisterWidth(p, Crc16Accumulate(p, acc, s[0]), s[1..]);
    }
  }

  /** Every digest fits the width of its variant: 8 bits for XOR and CRC-8, 16 for CRC-16. */
  lemma DigestWidth(a: Algorithm, s: seq<bv8>)
    ensures a.Xor? || a.Crc8? ==> Digest(a, s) < 0x100
    ensures a.Crc16? ==> Digest(a, s) < 0x1_0000
  {
    if a.Xor? {
      XorDigestIsParity(s);
    }
  }

  /** No variant overrides the position-aware accumulate: the position never matters. */
  lemma PositionIgnored(a: Algorithm, acc: bv32, value: bv8, count: nat, other: nat)
    ensures AccumulateAt(a, acc, value, count) == AccumulateAt(a, acc, value, other)
    ensures AccumulateAt(a, acc, value, count) == Accumulate(a, acc, value)
  {
  }

  // ---------------------------------------------------------------------
  // Constructors and setters.

  /** Every parameter but the polynomial defaults to zero or false. */
  lemma ConstructorDefaults(poly8: bv8, poly16: bv16, poly32: bv32)
    ensures NewCrc8(poly8) == CrcParams(poly8, 0, 0, false, false)
    ensures NewCrc16(poly16) == CrcParams(poly16, 0, 0, false, false)
    ensures NewCrc32(poly32) == CrcParams(Reflect32(poly32), 0, 0, false, false)
  {
  }

  /** Called without an argument, the flag setters set their flag. */
  lemma FlagSettersDefaultToTrue<T>(p: CrcParams<T>)
    ensures p.SetInReverse() == p.(inReverse := true)
    ensures p.SetOutReverse() == p.(outReverse := true)
  {
  }

  /** The CRC-32 polynomial setter: the last value set wins, and setting the read-back value changes nothing. */
  lemma Crc32SetPolynomLastWins(p: CrcParams<bv32>, x: bv32, y: bv32)
    ensures Crc32SetPolynom(Crc32SetPolynom(p, x), y) == Crc32SetPolynom(p, y)
    ensures Crc32SetPolynom(p, Reflect32(p.polynom)) == p
  {
    Reflect32Involutive(p.polynom);
  }

  /** The CRC-32 preset stores the reflected IEEE polynomial. */
  lemma Crc32PresetStored()
    ensures CRC32 == Crc32(CrcParams(0xEDB8_8320, 0xFFFF_FFFF, 0xFFFF_FFFF, true, true))
  {
    Reflect32OfIeeePolynomial();
  }

  /** The CRC-32 preset, built instead from the default constructor and the fluent setters. */
  lemma Crc32PresetBySetters()
    ensures Crc32(NewCrc32(0x04C1_1DB7).SetBase(0xFFFF_FFFF).SetFinalXor(0xFFFF_FFFF).SetInReverse().SetOutReverse()) == CRC32
  {
    Crc32PresetStored();
  }

  // ---------------------------------------------------------------------
  // Check values: the digests of the ASCII string "123456789".

  const CheckInput: seq<bv8> := [0x31, 0x32, 0x33, 0x34, 0x35, 0x36, 0x37, 0x38, 0x39]

  /** Three runs of bytes, each taking the register to the next given value. */
  lemma FoldThrough(a: Algorithm, r0: bv32, r1: bv32, r2: bv32, r3: bv32, x: seq<bv8>, y: seq<bv8>, z: seq<bv8>)
    requires Fold(a, r0, x) == r1 && Fold(a, r1, y) == r2 && Fold(a, r2, z) == r3
    ensures Fold(a, r0, x + y + z) == r3
  {
    FoldAppend(a, r0, x + y, z);
    FoldAppend(a, r0, x, y);
  }

  lemma CheckInputThirds()
    ensures CheckInput == [0x31, 0x32, 0x33] + [0x34, 0x35, 0x36] + [0x37, 0x38, 0x39]
  {
  }

  /** The CRC-32 preset gives 0xCBF43926, the check value of the IEEE 802.3 CRC. */
  lemma Crc32CheckValue()
    ensures Digest(CRC32, CheckInput) == 0xCBF4_3926
  {
    Crc32PresetStored();
    Crc32Check1();
    Crc32Check2();
    Crc32Check3();
    CheckInputThirds();
    FoldThrough(CRC32, 0xFFFF_FFFF, 0x77B7_9C2D, 0xF68D_2C9E, 0x340B_C6D9,
                [0x31, 0x32, 0x33], [0x34, 0x35, 0x36], [0x37, 0x38, 0x39]);
  }

  lemma Crc32Check1()
    ensures Fold(Crc32(CrcParams(0xEDB8_8320, 0xFFFF_FFFF, 0xFFFF_FFFF, true, true)), 0xFFFF_FFFF, [0x31, 0x32, 0x33]) == 0x77B7_9C2D
  {
  }

  lemma Crc32Check2()
    ensures Fold(Crc32(CrcParams(0xEDB8_8320, 0xFFFF_FFFF, 0xFFFF_FFFF, true, true)), 0x77B7_9C2D, [0x34, 0x35, 0x36]) == 0xF68D_2C9E
  {
  }

  lemma Crc32Check3()
    ensures Fold(Crc32(CrcParams(0xEDB8_8320, 0xFFFF_FFFF, 0xFFFF_FFFF, true, true)), 0xF68D_2C9E, [0x37, 0x38, 0x39]) == 0x340B_C6D9
  {
  }

  /** The CRC-16 preset gives 0xFEE8, the check value of CRC-16/UMTS. */
  lemma Crc16CheckValue()
    ensures Digest(CRC16, CheckInput) == 0xFEE8
  {
    Crc16Check1();
    Crc16Check2();
    Crc16Check3();
    CheckInputThirds();
    FoldThrough(CRC16, 0, 0xAF7E, 0xB16E, 0xFEE8, [0x31, 0x32, 0x33], [0x34, 0x35, 0x36], [0x37, 0x38, 0x39]);
  }

  lemma Crc16Check1()
    ensures Fold(CRC16, 0, [0x31, 0x32, 0x33]) == 0xAF7E
  {
  }

  lemma Crc16Check2()
    ensures Fold(CRC16, 0xAF7E, [0x34, 0x35, 0x36]) == 0xB16E
  {
  }

  lemma Crc16Check3()
    ensures Fold(CRC16, 0xB16E, [0x37, 0x38, 0x39]) == 0xFEE8
  {
  }

  /** The CRC-8 preset gives 0xF4, the check value of CRC-8/SMBUS. */
  lemma Crc8CheckValue()
    ensures Digest(CRC8, CheckInput) == 0xF4
  {
    Crc8Check1();
    Crc8Check2();
    Crc8Check3();
    CheckInputThirds();
    FoldThrough(CRC8, 0, 0xC0, 0xFD, 0xF4, [0x31, 0x32, 0x33], [0x34, 0x35, 0x36], [0x37, 0x38, 0x39]);
  }

  lemma Crc8Check1()
    ensures Fold(CRC8, 0, [0x31, 0x32, 0x33]) == 0xC0
  {
  }

  lemma Crc8Check2()
    ensures Fold(CRC8, 0xC0, [0x34, 0x35, 0x36]) == 0xFD
  {
  }

  lemma Crc8Check3()
    ensures Fold(CRC8, 0xFD, [0x37, 0x38, 0x39]) == 0xF4
  {
  }

  /** A zero byte leaves the CRC-8 preset at zero; a one byte gives the polynomial. */
  lemma Crc8OfSingleBytes()
    ensures Digest(CRC8, [0x00]) == 0x00
    ensures Digest(CRC8, [0x01]) == 0x07
  {
  }

  /**
   * Through the engines, the catalogue definitions give the published
   * check values of CRC-32/ISO-HDLC, CRC-16/UMTS and CRC-8/SMBUS.
   */
  lemma CatalogCheckValues()
    ensures CatalogCrc32(0x04C1_1DB7, 0xFFFF_FFFF, true, true, 0xFFFF_FFFF, CheckInput) == 0xCBF4_3926
    ensures Widen16(CatalogCrc16(0x8005, 0, false, false, 0, CheckInput)) == 0xFEE8
    ensures Widen8(CatalogCrc8(0x07, 0, false, false, 0, CheckInput)) == 0xF4
  {
    Crc32PresetIsIsoHdlc(CheckInput);
    Crc32CheckValue();
    Crc16PresetIsUmts(CheckInput);
    Crc16CheckValue();
    Crc8PresetIsSmbus(CheckInput);
    Crc8CheckValue();
  }
}
