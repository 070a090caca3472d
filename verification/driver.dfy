/**
 * The checksum driver: runs one algorithm's three phases over a byte range,
 * over a pointer and a length, or over a sequence of wider scalar values
 * that it splits into bytes, least significant byte first.
 */
module Driver {
  import opened BitOps
  import opened Algorithms

  /** The register after accumulating `s` into `acc`, first byte first. */
  function Fold(a: Algorithm, acc: bv32, s: seq<bv8>): bv32
    decreases s
  {
    if |s| == 0 then acc else Fold(a, Accumulate(a, acc, s[0]), s[1..])
  }

  /** The digest of a byte sequence: base, one accumulate per byte, final. */
  function Digest(a: Algorithm, s: seq<bv8>): bv32
  {
    Final(a, Fold(a, Base(a), s))
  }

  /**
   * Streaming law: accumulating `xs + ys` continues, over `ys`, from the
   * register that `xs` left behind.
   */
  lemma {:induction false} FoldAppend(a: Algorithm, acc: bv32, xs: seq<bv8>, ys: seq<bv8>)
    ensures Fold(a, acc, xs + ys) == Fold(a, Fold(a, acc, xs), ys)
    decreases xs
  {
    if |xs| == 0 {
      assert xs + ys == ys;
    } else {
      assert (xs + ys)[1..] == xs[1..] + ys;
      FoldAppend(a, Accumulate(a, acc, xs[0]), xs[1..], ys);
    }
  }

  /** One more byte is one more accumulate. */
  lemma {:induction false} FoldSnoc(a: Algorithm, acc: bv32, s: seq<bv8>, b: bv8)
    ensures Fold(a, acc, s + [b]) == Accumulate(a, Fold(a, acc, s), b)
  {
    FoldAppend(a, acc, s, [b]);
  }

  /** Extending a prefix by the next byte is one more accumulate. */
  lemma {:induction false} FoldPrefix(a: Algorithm, acc: bv32, s: seq<bv8>, n: nat)
    requires n < |s|
    ensures Fold(a, acc, s[..n + 1]) == Accumulate(a, Fold(a, acc, s[..n]), s[n])
  {
    assert s[..n + 1] == s[..n] + [s[n]];
    FoldSnoc(a, acc, s[..n], s[n]);
  }

  /**
   * `calculate(begin, end)` over the half-open range `mem[begin..end]`:
   * base, then one accumulate per byte while `begin != end`, then final.
   */
  method Calculate(a: Algorithm, mem: seq<bv8>, begin: nat, end: nat) returns (r: bv32)
    requires begin <= end <= |mem|
    ensures r == Digest(a, mem[begin..end])
  {
    var acc := Base(a);
    var p := begin;
    while p != end
      invariant begin <= p <= end
      invariant acc == Fold(a, Base(a), mem[begin..p])
      decreases end - p
    {
      FoldSnoc(a, Base(a), mem[begin..p], mem[p]);
      assert mem[begin..p + 1] == mem[begin..p] + [mem[p]];
      acc := Accumulate(a, acc, mem[p]);
      p := p + 1;
    }
    r := Final(a, acc);
  }

  /**
   * `calculate(data, length)`: the range from `data` to `data + length`. The
   * length parameter is 16 bits wide.
   */
  method CalculateLength(a: Algorithm, mem: seq<bv8>, data: nat, length: nat) returns (r: bv32)
    requires length < 0x1_0000
    requires data + length <= |mem|
    ensures r == Digest(a, mem[data..data + length])
  {
    r := Calculate(a, mem, data, data + length);
  }

  // ---------------------------------------------------------------------
  // The generic driver over wider scalars.

  /** The bytes of one scalar of `size` bytes, least significant first. */
  function WordBytes(w: bv64, size: nat): (r: seq<bv8>)
    requires 1 <= size <= 8
    ensures |r| == size
    ensures forall i :: 0 <= i < size ==> r[i] == NthByte(i as bv8, w)
  {
    seq(size, i requires 0 <= i < size => NthByte(i as bv8, w))
  }

  // An independent reading of a byte image: the value it encodes
  // little-endian, byte i standing for bits 8i..8i+7.

  /** The value whose little-endian image is `bs`. */
  function LittleEndian(bs: seq<bv8>): bv64
    requires |bs| <= 8
  {
    if |bs| == 0 then 0
    else WithByte(LittleEndian(bs[..|bs| - 1]), bs[|bs| - 1], |bs| - 1)
  }

  /** `x` with byte `b` OR-ed in at byte position `k`. */
  function WithByte(x: bv64, b: bv8, k: nat): bv64
    requires k < 8
  {
    match k
    case 0 => x | b as bv64
    case 1 => x | (b as bv64 << 8)
    case 2 => x | (b as bv64 << 16)
    case 3 => x | (b as bv64 << 24)
    case 4 => x | (b as bv64 << 32)
    case 5 => x | (b as bv64 << 40)
    case 6 => x | (b as bv64 << 48)
    case _ => x | (b as bv64 << 56)
  }

  /** The low `n` bytes of `w`, the bits above them cleared. */
  function LowBytes(w: bv64, n: nat): bv64
    requires n <= 8
  {
    match n
    case 0 => w & 0
    case 1 => w & 0xFF
    case 2 => w & 0xFFFF
    case 3 => w & 0xFF_FFFF
    case 4 => w & 0xFFFF_FFFF
    case 5 => w & 0xFF_FFFF_FFFF
    case 6 => w & 0xFFFF_FFFF_FFFF
    case 7 => w & 0xFF_FFFF_FFFF_FFFF
    case _ => w
  }

  /**
   * A scalar's bytes, read back little-endian, give its low `size` bytes;
   * all eight bytes give the scalar itself.
   */
  lemma WordBytesImage(w: bv64, size: nat)
    requires 1 <= size <= 8
    ensures LittleEndian(WordBytes(w, size)) == LowBytes(w, size)
    ensures size == 8 ==> LittleEndian(WordBytes(w, size)) == w
  {
    var r := WordBytes(w, size);
    ImagePrefix(w, r, size);
    assert r[..size] == r;
  }

  /** Each prefix of a scalar's byte image reads back as its low bytes. */
  lemma {:induction false} ImagePrefix(w: bv64, bs: seq<bv8>, n: nat)
    requires |bs| <= 8 && n <= |bs|
    requires forall i :: 0 <= i < |bs| ==> bs[i] == NthByte(i as bv8, w)
    ensures LittleEndian(bs[..n]) == LowBytes(w, n)
  {
    if n > 0 {
      ImagePrefix(w, bs, n - 1);
      assert bs[..n][..n - 1] == bs[..n - 1];
      ImageStep(w, bs[..n], n - 1);
    }
  }

  /** One more byte of the image reads back as one more low byte. */
  lemma ImageStep(w: bv64, prefix: seq<bv8>, k: nat)
    requires k < 8 && |prefix| == k + 1
    requires prefix[k] == NthByte(k as bv8, w)
    requires LittleEndian(prefix[..k]) == LowBytes(w, k)
    ensures LittleEndian(prefix) == LowBytes(w, k + 1)
  {
    ByteAbove(w, k);
  }

  /** Byte k of `w`, put back at its place, extends the low k bytes to k + 1. */
  lemma ByteAbove(w: bv64, k: nat)
    requires k < 8
    ensures WithByte(LowBytes(w, k), NthByte(k as bv8, w), k) == LowBytes(w, k + 1)
  {
    match k
    case 0 => ByteAt0(w, k);
    case 1 => ByteAt1(w, k);
    case 2 => ByteAt2(w, k);
    case 3 => ByteAt3(w, k);
    case 4 => ByteAt4(w, k);
    case 5 => ByteAt5(w, k);
    case 6 => ByteAt6(w, k);
    case 7 => ByteAt7(w, k);
  }

  // ByteAt0 .. ByteAt7: the eight cases of ByteAbove, each reduced to a
  // bit-vector identity with constant shifts (ByteBits0 .. ByteBits7).

  lemma ByteAt0(w: bv64, k: nat)
    requires k == 0
    ensures WithByte(LowBytes(w, k), NthByte(k as bv8, w), k) == LowBytes(w, k + 1)
  {
    assert NthByte(k as bv8, w) == NthByte(0, w);
    ByteBits0(w);
  }

  lemma ByteBits0(w: bv64)
    ensures (w & 0) | NthByte(0, w) as bv64 == w & 0xFF
  {
  }

  lemma ByteAt1(w: bv64, k: nat)
    requires k == 1
    ensures WithByte(LowBytes(w, k), NthByte(k as bv8, w), k) == LowBytes(w, k + 1)
  {
    assert NthByte(k as bv8, w) == NthByte(1, w);
    ByteBits1(w);
  }

  lemma ByteBits1(w: bv64)
    ensures (w & 0xFF) | (NthByte(1, w) as bv64 << 8) == w & 0xFFFF
  {
  }

  lemma ByteAt2(w: bv64, k: nat)
    requires k == 2
    ensures WithByte(LowBytes(w, k), NthByte(k as bv8, w), k) == LowBytes(w, k + 1)
  {
    assert NthByte(k as bv8, w) == NthByte(2, w);
    ByteBits2(w);
  }

  lemma ByteBits2(w: bv64)
    ensures (w & 0xFFFF) | (NthByte(2, w) as bv64 << 16) == w & 0xFF_FFFF
  {
  }

  lemma ByteAt3(w: bv64, k: nat)
    requires k == 3
    ensures WithByte(LowBytes(w, k), NthByte(k as bv8, w), k) == LowBytes(w, k + 1)
  {
    assert NthByte(k as bv8, w) == NthByte(3, w);
    ByteBits3(w);
  }

  lemma ByteBits3(w: bv64)
    ensures (w & 0xFF_FFFF) | (NthByte(3, w) as bv64 << 24) == w & 0xFFFF_FFFF
  {
  }

  lemma ByteAt4(w: bv64, k: nat)
    requires k == 4
    ensures WithByte(LowBytes(w, k), NthByte(k as bv8, w), k) == LowBytes(w, k + 1)
  {
    assert NthByte(k as bv8, w) == NthByte(4, w);
    ByteBits4(w);
  }

  lemma ByteBits4(w: bv64)
    ensures (w & 0xFFFF_FFFF) | (NthByte(4, w) as bv64 << 32) == w & 0xFF_FFFF_FFFF
  {
  }

  lemma ByteAt5(w: bv64, k: nat)
    requires k == 5
    ensures WithByte(LowBytes(w, k), NthByte(k as bv8, w), k) == LowBytes(w, k + 1)
  {
    assert NthByte(k as bv8, w) == NthByte(5, w);
    ByteBits5(w);
  }

  lemma ByteBits5(w: bv64)
    ensures (w & 0xFF_FFFF_FFFF) | (NthByte(5, w) as bv64 << 40) == w & 0xFFFF_FFFF_FFFF
  {
  }

  lemma ByteAt6(w: bv64, k: nat)
    requires k == 6
    ensures WithByte(LowBytes(w, k), NthByte(k as bv8, w), k) == LowBytes(w, k + 1)
  {
    assert NthByte(k as bv8, w) == NthByte(6, w);
    ByteBits6(w);
  }

  lemma ByteBits6(w: bv64)
    ensures (w & 0xFFFF_FFFF_FFFF) | (NthByte(6, w) as bv64 << 48) == w & 0xFF_FFFF_FFFF_FFFF
  {
  }

  lemma ByteAt7(w: bv64, k: nat)
    requires k == 7
    ensures WithByte(LowBytes(w, k), NthByte(k as bv8, w), k) == LowBytes(w, k + 1)
  {
    assert NthByte(k as bv8, w) == NthByte(7, w);
    ByteBits7(w);
  }

  lemma ByteBits7(w: bv64)
    ensures (w & 0xFF_FFFF_FFFF_FFFF) | (NthByte(7, w) as bv64 << 56) == w
  {
  }

  /** The little-endian byte image of a sequence of scalars, element after element. */
  function Flatten(words: seq<bv64>, size: nat): seq<bv8>
    requires 1 <= size <= 8
  {
    if |words| == 0 then [] else WordBytes(words[0], size) + Flatten(words[1..], size)
  }

  /** The image holds `size` bytes per element. */
  lemma {:induction false} FlattenLength(words: seq<bv64>, size: nat)
    requires 1 <= size <= 8
    ensures |Flatten(words, size)| == |words| * size
    decreases words
  {
    if |words| > 0 {
      FlattenLength(words[1..], size);
      assert |words| * size == (|words| - 1) * size + size;
    }
  }

  /** Byte `i` of element `e` sits at offset `e * size + i` of the image. */
  lemma {:induction false} FlattenAt(words: seq<bv64>, size: nat, e: nat, i: nat)
    requires 1 <= size <= 8
    requires e < |words| && i < size
    ensures e * size + i < |Flatten(words, size)|
    ensures Flatten(words, size)[e * size + i] == NthByte(i as bv8, words[e])
  {
    FlattenSplit(words, e, size);
    PrefixLength(words, e, size);
    IndexMiddle(Flatten(words[..e], size), WordBytes(words[e], size), Flatten(words[e + 1..], size), i, e * size + i);
  }

  /** The image around element `e`: what precedes it, its bytes, what follows. */
  lemma {:induction false} FlattenSplit(words: seq<bv64>, e: nat, size: nat)
    requires 1 <= size <= 8
    requires e < |words|
    ensures Flatten(words, size) ==
            Flatten(words[..e], size) + (WordBytes(words[e], size) + Flatten(words[e + 1..], size))
  {
    assert words[..e] + words[e..] == words;
    FlattenAppend(words[..e], words[e..], size);
    FlattenSnoc(words, e, size);
  }

  /** The image of the first `e` elements holds `e * size` bytes. */
  lemma {:induction false} PrefixLength(words: seq<bv64>, e: nat, size: nat)
    requires 1 <= size <= 8
    requires e <= |words|
    ensures |Flatten(words[..e], size)| == e * size
  {
    FlattenLength(words[..e], size);
  }

  /** Offset `j` of `xs + (ys + zs)`, just past `xs` by `i`, is element `i` of `ys`. */
  lemma IndexMiddle<T>(xs: seq<T>, ys: seq<T>, zs: seq<T>, i: nat, j: nat)
    requires i < |ys| && j == |xs| + i
    ensures j < |xs + (ys + zs)|
    ensures (xs + (ys + zs))[j] == ys[i]
  {
  }

  /**
   * One call of the position-aware accumulate: the byte and the counter
   * passed. The driver counts in 32 bits but the parameter is 16 bits wide,
   * so the counter arrives reduced modulo 2^16.
   */
  datatype Feed = Feed(value: bv8, position: nat)

  function Narrow(count: nat): (c: nat)
    ensures c < 0x1_0000
  {
    count % 0x1_0000
  }

  /** `fed` is one call per byte of `s`, in order, the counter starting at `start`. */
  predicate Records(fed: seq<Feed>, s: seq<bv8>, start: nat)
  {
    |fed| == |s| && forall i :: 0 <= i < |s| ==> fed[i] == Feed(s[i], Narrow(start + i))
  }

  /** Two runs of calls, the second picking the counter up where the first left it. */
  lemma RecordsAppend(f1: seq<Feed>, s1: seq<bv8>, f2: seq<Feed>, s2: seq<bv8>, start: nat)
    requires Records(f1, s1, start)
    requires Records(f2, s2, start + |s1|)
    ensures Records(f1 + f2, s1 + s2, start)
  {
    forall i | 0 <= i < |s1 + s2|
      ensures (f1 + f2)[i] == Feed((s1 + s2)[i], Narrow(start + i))
    {
      if i >= |s1| {
        assert (f1 + f2)[i] == f2[i - |s1|];
      }
    }
  }

  /** One more call, for the next byte, extends the record by that byte. */
  lemma RecordsSnoc(fed: seq<Feed>, s: seq<bv8>, n: nat, start: nat)
    requires n < |s|
    requires Records(fed, s[..n], start)
    ensures Records(fed + [Feed(s[n], Narrow(start + n))], s[..n + 1], start)
  {
    RecordsAppend(fed, s[..n], [Feed(s[n], Narrow(start + n))], [s[n]], start);
    assert s[..n + 1] == s[..n] + [s[n]];
  }

  /**
   * The inner loop of the generic `calculate`: bytes 0 to `size - 1` of one
   * element go through the position-aware accumulate, the counter rising
   * by one per byte from `count`.
   */
  method FeedElement(a: Algorithm, acc: bv32, w: bv64, size: nat, count: nat) returns (r: bv32, fed: seq<Feed>)
    requires 1 <= size <= 8
    ensures r == Fold(a, acc, WordBytes(w, size))
    ensures Records(fed, WordBytes(w, size), count)
  {
    var bytes := WordBytes(w, size);
    r := acc;
    fed := [];
    var ix: nat := 0;
    while ix < size
      invariant ix <= size
      invariant Records(fed, bytes[..ix], count)
      invariant r == Fold(a, acc, bytes[..ix])
    {
      FoldPrefix(a, acc, bytes, ix);
      RecordsSnoc(fed, bytes, ix, count);
      r := AccumulateAt(a, r, bytes[ix], Narrow(count + ix));
      fed := fed + [Feed(bytes[ix], Narrow(count + ix))];
      ix := ix + 1;
    }
    assert bytes[..ix] == bytes;
  }

  /**
   * The generic `calculate` over scalars of `size` bytes: every element's
   * bytes, least significant first, go through the position-aware
   * accumulate with a counter running across all elements. `fed` records
   * those calls.
   */
  method CalculateWords(a: Algorithm, words: seq<bv64>, size: nat) returns (r: bv32, fed: seq<Feed>)
    requires 1 <= size <= 8
    ensures Records(fed, Flatten(words, size), 0)
    ensures |fed| == |words| * size
    ensures r == Digest(a, Flatten(words, size))
  {
    var acc := Base(a);
    fed := [];
    var e := 0;
    while e < |words|
      invariant 0 <= e <= |words|
      invariant Records(fed, Flatten(words[..e], size), 0)
      invariant acc == Fold(a, Base(a), Flatten(words[..e], size))
    {
      var acc', more := FeedElement(a, acc, words[e], size, |fed|);
      NextElement(a, words, e, size, fed, more, acc, acc');
      acc, fed := acc', fed + more;
      e := e + 1;
    }
    assert words[..e] == words;
    FlattenLength(words, size);
    r := Final(a, acc);
  }

  /** The loop step of the generic `calculate`: one more element fed, one more element done. */
  lemma NextElement(a: Algorithm, words: seq<bv64>, e: nat, size: nat,
                    fed: seq<Feed>, more: seq<Feed>, acc: bv32, acc': bv32)
    requires 1 <= size <= 8
    requires e < |words|
    requires Records(fed, Flatten(words[..e], size), 0)
    requires acc == Fold(a, Base(a), Flatten(words[..e], size))
    requires Records(more, WordBytes(words[e], size), |fed|)
    requires acc' == Fold(a, acc, WordBytes(words[e], size))
    ensures Records(fed + more, Flatten(words[..e + 1], size), 0)
    ensures acc' == Fold(a, Base(a), Flatten(words[..e + 1], size))
  {
    FlattenSnoc(words, e, size);
    FoldAppend(a, Base(a), Flatten(words[..e], size), WordBytes(words[e], size));
    RecordsAppend(fed, Flatten(words[..e], size), more, WordBytes(words[e], size), 0);
  }

  /** The image of one more element is the old image followed by its bytes. */
  lemma {:induction false} FlattenSnoc(words: seq<bv64>, e: nat, size: nat)
    requires 1 <= size <= 8
    requires e < |words|
    ensures Flatten(words[..e + 1], size) == Flatten(words[..e], size) + WordBytes(words[e], size)
    ensures Flatten(words[e..], size) == WordBytes(words[e], size) + Flatten(words[e + 1..], size)
  {
    FlattenAppend(words[..e], [words[e]], size);
    assert words[..e + 1] == words[..e] + [words[e]];
    assert Flatten([words[e]], size) == WordBytes(words[e], size) + Flatten([], size);
    assert words[e..][1..] == words[e + 1..];
  }

  lemma {:induction false} FlattenAppend(xs: seq<bv64>, ys: seq<bv64>, size: nat)
    requires 1 <= size <= 8
    ensures Flatten(xs + ys, size) == Flatten(xs, size) + Flatten(ys, size)
    decreases xs
  {
    if |xs| == 0 {
      assert xs + ys == ys;
    } else {
      assert (xs + ys)[1..] == xs[1..] + ys;
      FlattenAppend(xs[1..], ys, size);
    }
  }
}
