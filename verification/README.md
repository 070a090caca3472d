# Checksum engine: a Dafny model

This project models the `checksum` library. The library computes a checksum
of a byte range in three phases over a single 32-bit register: `setBase`,
then one `accumulate` per byte, then `setFinal`. There are four algorithms:

- an XOR checksum;
- a CRC-8 engine, shifting left and masked to 8 bits;
- a CRC-16 engine, shifting left and masked to 16 bits, each byte entering at bit 8;
- a CRC-32 engine, shifting right over a reflected register, with a branchless
  feedback step and its polynomial stored bit-reversed.

The three CRC engines are configured by a five-field parameter record:
polynomial, base, final mask, input reflection and output reflection. The
record has constructor defaults and fluent setters. The driver runs one
algorithm over a pointer range, over a pointer and a 16-bit length, or
over a sequence of wider scalars. For scalars it feeds each one's bytes,
least significant first, with a running position counter.

Modules:

- `BitOps` (bitops.dfy): byte extraction (`NBYTE`), bit reversal of a byte
  (`BYTE_REVERSE`) and the 16- and 32-bit output and polynomial reflections
  built from them. Each is proved equal to an independent swap-network bit
  mirror, and the reflections are proved involutive. It also holds the
  zero-extension of 8- and 16-bit values into the 32-bit register.
- `Algorithms` (algorithms.dfy): the parameter record with its setters and
  constructors, the closed family `Algorithm` of the four variants, the
  presets, and the `Base`/`Accumulate`/`AccumulateAt`/`Final` protocol.
- `Driver` (driver.dfy): the digest as a fold, the pointer-range and
  pointer+length `calculate` as loops, and the generic scalar `calculate`.
  The scalar driver records each position-aware call it makes.
- `Catalog` (catalog.dfy): reference definitions of CRC-8, CRC-16 and
  CRC-32 in the parameter model of CRC catalogues (width, poly, init,
  refin, refout, xorout; the most-significant-bit-first register of Ross
  Williams' "Painless Guide"). Each engine is proved to compute its
  reference for every parameter record.
  - CRC-8 and CRC-16 use the record's parameters unchanged.
  - CRC-32 works on the mirrored register. Its catalogue polynomial is the
    one given to the constructor and its flags keep their meaning, but its
    catalogue `init` is the bit-reflection of the base value, because the
    base is loaded into the reflected register as it is. For the preset
    (all-ones base) the two coincide.
- `Properties` (properties.dfy): the XOR checksum as byte parity, the empty
  input, width bounds, constructor defaults and setter chains, and the
  check values of the presets over the ASCII string "123456789".

Input bytes are `bv8` values, zero-extended into the 32-bit register. This is
the behaviour of an unsigned `char`. The register is a `bv32`, so the
source's `uint32_t` wrap-around is built in. The narrow registers of CRC-8
and CRC-16 are related to the 32-bit one through `BitOps.Widen8` and
`BitOps.Widen16`, which zero-extend.

The generic driver counts bytes in a `uint32_t` (Checksum.h:152) but hands
the count to `accumulate` through a `uint16_t` parameter (Checksum.h:22,
Checksum.cpp:26), so the position an algorithm receives is the count modulo
2^16 (`Driver.Narrow`).

## Model

| member | source | states |
|---|---|---|
| BitOps.NthByte | src/checksum/Checksum.h:160 | `NBYTE(n, x)`, byte `n` of `x` counted from the least significant; no contract of its own, its use is stated by `Driver.WordBytesImage` |
| BitOps.Reverse8 | src/checksum/Checksum.cpp:80 | `BYTE_REVERSE`, the bit reversal of a byte; no contract of its own, stated by `BitOps.Reverse8IsMirror` and `BitOps.Reverse8Involutive` |
| BitOps.MirrorOfReverse8 | src/checksum/Checksum.cpp:80 | the bit mirror of a reversed byte is the byte itself |
| BitOps.Reflect16 | src/checksum/Checksum.cpp:126-127 | the CRC-16 output reflection; no contract of its own, stated by `BitOps.Reflect16IsMirror` |
| BitOps.Reflect32 | src/checksum/Checksum.cpp:148-151 | the CRC-32 four-byte reflection; no contract of its own, stated by `BitOps.Reflect32IsMirror` |
| BitOps.Reverse8IsMirror | src/checksum/Checksum.cpp:80 | the byte reversal used on input bytes is the bit mirror of the byte, as computed by an independent swap network |
| BitOps.Reverse8Involutive | src/checksum/Checksum.cpp:93-95 | reversing a byte twice gives the byte back |
| BitOps.Reflect16IsMirror | src/checksum/Checksum.cpp:125-128 | the CRC-16 output reflection (reversed byte 1 in the low byte, reversed byte 0 above it) is the bit mirror of the low 16 bits, and it clears bits 16..31 |
| BitOps.Reflect16Involutive | src/checksum/Checksum.cpp:125-128 | applying the CRC-16 output reflection twice restores the low 16 bits of the register |
| BitOps.Reflect32IsMirror | src/checksum/Checksum.cpp:148-151 | the four-byte reflection used for the CRC-32 polynomial and output is the bit mirror of the 32-bit word |
| BitOps.Reflect32Involutive | src/checksum/Checksum.cpp:162-165 | the 32-bit reflection undoes itself |
| BitOps.Reflect32OfIeeePolynomial | src/checksum/Checksum.cpp:20 | the preset's polynomial 0x04C11DB7 is stored as 0xEDB88320 |
| BitOps.Widen8 | src/checksum/Checksum.cpp:87-89 | an 8-bit value held in the 32-bit register keeps bits 8..31 clear and is read back unchanged |
| BitOps.Widen16 | src/checksum/Checksum.cpp:119-121 | a 16-bit value held in the 32-bit register keeps bits 16..31 clear and is read back unchanged |
| Algorithms.CrcParams.SetPolynom | src/checksum/Checksum.h:48-51 | sets the polynomial to the argument and leaves the other four fields unchanged |
| Algorithms.CrcParams.SetBase | src/checksum/Checksum.h:53-56 | sets the base value and leaves the other four fields unchanged |
| Algorithms.CrcParams.SetFinalXor | src/checksum/Checksum.h:58-61 | sets the final mask and leaves the other four fields unchanged |
| Algorithms.CrcParams.SetInReverse | src/checksum/Checksum.h:63-66 | sets the input-reflection flag to the argument and leaves the other four fields unchanged |
| Algorithms.CrcParams.SetOutReverse | src/checksum/Checksum.h:68-71 | sets the output-reflection flag to the argument and leaves the other four fields unchanged |
| Algorithms.NewCrc8 | src/checksum/Checksum.cpp:71-76 | the CRC-8 constructor stores its five arguments; the defaults are stated by `Properties.ConstructorDefaults` |
| Algorithms.NewCrc16 | src/checksum/Checksum.cpp:103-108 | the CRC-16 constructor stores its five arguments; the defaults are stated by `Properties.ConstructorDefaults` |
| Algorithms.Crc32SetPolynom | src/checksum/Checksum.cpp:146-153 | the CRC-32 override stores a value whose reflection is the argument, so the argument can be read back, and leaves the other fields unchanged |
| Algorithms.NewCrc32 | src/checksum/Checksum.cpp:136-144 | the CRC-32 constructor stores the reflection of the polynomial, reflected exactly once, and the other four arguments as given |
| Algorithms.XorAccumulate | src/checksum/Checksum.cpp:63-66 | the XOR accumulate, the byte zero-extended; no contract of its own, stated by `Properties.XorFold` (accumulating XOR-s in the parity of the bytes) |
| Algorithms.Crc8Round | src/checksum/Checksum.cpp:83 | after each pass of the CRC-8 shift loop the register fits in 8 bits |
| Algorithms.Crc8Rounds | src/checksum/Checksum.cpp:82-84 | after at least one pass the CRC-8 register fits in 8 bits, whatever it held before |
| Algorithms.Crc8ByteIn | src/checksum/Checksum.cpp:80 | the CRC-8 byte entry changes bits 0..7 only; what enters is the byte itself, or with `inReverse` a byte whose bit mirror is the input byte |
| Algorithms.Crc8Accumulate | src/checksum/Checksum.cpp:78-85 | a CRC-8 accumulate leaves the register within 8 bits |
| Algorithms.Crc8Final | src/checksum/Checksum.cpp:91-98 | the CRC-8 final phase leaves a value within 8 bits |
| Algorithms.Crc16Round | src/checksum/Checksum.cpp:115 | after each pass of the CRC-16 shift loop the register fits in 16 bits |
| Algorithms.Crc16Rounds | src/checksum/Checksum.cpp:114-116 | after at least one pass the CRC-16 register fits in 16 bits |
| Algorithms.Crc16ByteIn | src/checksum/Checksum.cpp:112 | the CRC-16 byte entry changes bits 8..15 only; what enters there is the byte itself, or with `inReverse` a byte whose bit mirror is the input byte |
| Algorithms.Crc16Accumulate | src/checksum/Checksum.cpp:110-117 | a CRC-16 accumulate leaves the register within 16 bits |
| Algorithms.Crc16Final | src/checksum/Checksum.cpp:123-131 | the CRC-16 final phase leaves a value within 16 bits |
| Algorithms.Crc32ByteIn | src/checksum/Checksum.cpp:173 | the CRC-32 byte entry changes bits 0..7 only; what enters is the byte itself when `inReverse` is set, and a byte whose bit mirror is the input byte when it is clear |
| Algorithms.Crc32Round | src/checksum/Checksum.cpp:176 | one branchless right-shifting pass; no contract of its own, stated by `Catalog.Crc32RoundBranching` and `Catalog.MirrorRound` |
| Algorithms.Crc32Rounds | src/checksum/Checksum.cpp:175-177 | `n` passes of the CRC-32 shift loop; no contract of its own, stated by `Catalog.MirrorRounds` |
| Algorithms.Crc32Accumulate | src/checksum/Checksum.cpp:171-178 | byte entry then eight passes; no contract of its own, stated by `Catalog.MirrorAccumulate` |
| Algorithms.Crc32Final | src/checksum/Checksum.cpp:159-169 | the CRC-32 final phase loses nothing: XOR-ing the mask back, and mirroring when `outReverse` is clear, recovers the register |
| Algorithms.Base | src/checksum/Checksum.cpp:31-33 | `setBase`: zero by default, the variant's base value in the overrides at lines 87-89, 119-121 and 155-157; no contract of its own, stated by `Properties.BaseLoads` |
| Algorithms.Accumulate | src/checksum/Checksum.h:20 | one accumulate per variant; no contract of its own, stated by the per-variant functions and by `Properties.Crc8RegisterWidth` and `Properties.Crc16RegisterWidth` |
| Algorithms.AccumulateAt | src/checksum/Checksum.cpp:24-29 | the position-aware accumulate; no contract of its own, stated by `Properties.PositionIgnored` |
| Algorithms.Final | src/checksum/Checksum.cpp:35-38 | `setFinal`: the default leaves the register alone and is what XOR uses; no contract of its own, stated by the per-variant final functions and `Properties.DigestWidth` |
| Driver.Fold | src/checksum/Checksum.cpp:52-54 | the accumulate loop, first byte first; no contract of its own, stated by `Driver.FoldAppend` and `Driver.Calculate` |
| Driver.Digest | src/checksum/Checksum.cpp:47-58 | base, the accumulate loop, final; no contract of its own, stated by `Driver.Calculate` and the `Catalog` lemmas |
| Driver.FoldAppend | src/checksum/Checksum.cpp:52-54 | streaming law: accumulating `xs + ys` continues over `ys` from the register `xs` left behind |
| Driver.Calculate | src/checksum/Checksum.cpp:47-58 | the loop over `begin != end` returns the base value, accumulated with every byte of the range in order, then finalised |
| Driver.CalculateLength | src/checksum/Checksum.cpp:43-45 | `calculate(data, length)` returns the digest of the range `data .. data + length` |
| Driver.WordBytes | src/checksum/Checksum.h:158-160 | an element of `size` bytes yields `size` bytes, byte `i` being `NBYTE(i, element)`; what these bytes mean is stated by `Driver.WordBytesImage` |
| Driver.WordBytesImage | src/checksum/Checksum.h:158-160 | the bytes fed for an element, read back little-endian (byte `i` at bits 8i..8i+7), give the element's low `size` bytes, and all eight bytes give the element itself |
| Driver.FlattenLength | src/checksum/Checksum.h:156-165 | `n` elements of `size` bytes feed `n * size` bytes |
| Driver.FlattenAt | src/checksum/Checksum.h:156-165 | the byte fed at position `e * size + i` is byte `i` of element `e`, least significant first |
| Driver.Narrow | src/checksum/Checksum.h:161 | the position reaching the 16-bit parameter is below 2^16 |
| Driver.FeedElement | src/checksum/Checksum.h:158-162 | the inner loop accumulates the element's bytes in order and makes one position-aware call per byte, the position rising by one from the counter's value |
| Driver.CalculateWords | src/checksum/Checksum.h:146-169 | the generic `calculate` returns the byte-range digest of the elements' little-endian byte images laid end to end, with positions 0, 1, ... n*size-1 (modulo 2^16) in that order |
| Catalog.Crc32RoundBranching | src/checksum/Checksum.cpp:176 | the branchless CRC-32 pass `(r >> 1) ^ (poly & -(r & 1))` XORs in the polynomial exactly when bit 0 is set |
| Catalog.MirrorRound | src/checksum/Checksum.cpp:175-177 | a right-shifting pass on the mirrored register is the mirror of a catalogue left-shifting pass under the mirrored polynomial |
| Catalog.MirrorRounds | src/checksum/Checksum.cpp:175-177 | any number of right-shifting passes on the mirrored register is the mirror of as many catalogue passes |
| Catalog.MirrorByteIn | src/checksum/Checksum.cpp:173 | feeding the byte, reversed exactly when `inReverse` is clear, is the mirror of the catalogue feeding it at the top, reversed exactly when `refin` is set |
| Catalog.MirrorAccumulate | src/checksum/Checksum.cpp:171-178 | one CRC-32 accumulate on the mirrored register is the mirror of one catalogue accumulate |
| Catalog.MirrorFold | src/checksum/Checksum.cpp:52-54 | over any byte sequence, the CRC-32 register is the mirror of the catalogue register |
| Catalog.Crc32IsCatalog | src/checksum/Checksum.cpp:155-178 | for every parameter record the CRC-32 digest is the catalogue CRC-32 with poly the mirror of the stored polynomial, init the mirror of the base, refin and refout the two flags, and xorout the final mask |
| Catalog.NewCrc32IsCatalog | src/checksum/Checksum.cpp:136-144 | through the constructor, the catalogue poly is the polynomial argument itself |
| Catalog.Crc32PresetIsIsoHdlc | src/checksum/Checksum.cpp:20 | the CRC-32 preset is CRC-32/ISO-HDLC: poly 0x04C11DB7, init and xorout all ones, both reflections |
| Catalog.Crc8RoundAgrees | src/checksum/Checksum.cpp:83 | on a register held in the low byte, the masked CRC-8 pass is the 8-bit catalogue pass |
| Catalog.Crc8ByteInAgrees | src/checksum/Checksum.cpp:80 | the CRC-8 byte entry, reversed when `inReverse` is set, is the catalogue's entry with `refin` |
| Catalog.Crc8FoldAgrees | src/checksum/Checksum.cpp:78-85 | over any byte sequence the CRC-8 register is the catalogue's 8-bit register, zero-extended |
| Catalog.Crc8FinalReflected | src/checksum/Checksum.cpp:91-98 | with `outReverse` set, the final phase reverses the held byte and XORs the final mask |
| Catalog.Crc8IsCatalog | src/checksum/Checksum.cpp:87-98 | for every parameter record the CRC-8 digest is the catalogue CRC-8 with the record's own parameters |
| Catalog.Crc8PresetIsSmbus | src/checksum/Checksum.cpp:18 | the CRC-8 preset is CRC-8/SMBUS: poly 0x07, init 0, no reflection, xorout 0 |
| Catalog.Crc16RoundAgrees | src/checksum/Checksum.cpp:115 | on a register held in the low half-word, the masked CRC-16 pass is the 16-bit catalogue pass |
| Catalog.Crc16ByteInAgrees | src/checksum/Checksum.cpp:112 | the CRC-16 byte entry at bits 8..15, reversed when `inReverse` is set, is the catalogue's entry at the top of the register |
| Catalog.Crc16FoldAgrees | src/checksum/Checksum.cpp:110-117 | over any byte sequence the CRC-16 register is the catalogue's 16-bit register, zero-extended |
| Catalog.Reflect16OfHeld | src/checksum/Checksum.cpp:125-128 | the CRC-16 output reflection of a held half-word is the catalogue's 16-bit reflection |
| Catalog.Crc16FinalReflected | src/checksum/Checksum.cpp:123-131 | with `outReverse` set, the final phase mirrors the held half-word and XORs the final mask |
| Catalog.Crc16IsCatalog | src/checksum/Checksum.cpp:119-131 | for every parameter record the CRC-16 digest is the catalogue CRC-16 with the record's own parameters |
| Catalog.Crc16PresetIsUmts | src/checksum/Checksum.cpp:19 | the CRC-16 preset is CRC-16/UMTS: poly 0x8005, init 0, no reflection, xorout 0 |
| Properties.XorFold | src/checksum/Checksum.cpp:63-66 | accumulating bytes with XOR folds their parity into the register |
| Properties.XorDigestIsParity | src/checksum/Checksum.cpp:31-38 | the XOR digest is the parity of the input bytes, so it fits in a byte |
| Properties.ParityOfMultiset | src/checksum/Checksum.cpp:65 | the parity depends only on the multiset of bytes |
| Properties.XorOrderFree | src/checksum/Checksum.cpp:63-66 | the XOR digest does not depend on the order of the bytes |
| Properties.XorSelfCancels | src/checksum/Checksum.cpp:65 | any byte sequence followed by itself has XOR digest zero |
| Properties.XorOfNibbles | src/checksum/Checksum.cpp:17 | the XOR preset gives 0xFF on the bytes 0x0F, 0xF0 |
| Properties.BaseLoads | src/checksum/Checksum.cpp:31-33 | XOR starts from zero; each CRC variant starts from its base value, zero-extended into the 32-bit register (lines 87-89, 119-121, 155-157) |
| Properties.EmptyInput | src/checksum/Checksum.cpp:47-58 | on the empty range the digest is `setFinal` applied to `setBase`, which is zero for all four presets |
| Properties.Crc8RegisterWidth | src/checksum/Checksum.cpp:82-84 | once a byte has been accumulated the CRC-8 register stays below 0x100 |
| Properties.Crc16RegisterWidth | src/checksum/Checksum.cpp:114-116 | once a byte has been accumulated the CRC-16 register stays below 0x10000 |
| Properties.DigestWidth | src/checksum/Checksum.cpp:91-131 | XOR and CRC-8 digests are below 0x100 and CRC-16 digests below 0x10000 |
| Properties.PositionIgnored | src/checksum/Checksum.cpp:24-29 | the position-aware accumulate ignores the position and is the plain accumulate |
| Properties.ConstructorDefaults | src/checksum/Checksum.h:37-46 | the constructors default base and final mask to 0 and both flags to false |
| Properties.FlagSettersDefaultToTrue | src/checksum/Checksum.h:63-71 | called without an argument, `setInReverse` and `setOutReverse` set their flag |
| Properties.Crc32SetPolynomLastWins | src/checksum/Checksum.cpp:146-153 | a second CRC-32 `setPolynom` overrides the first, and setting the read-back polynomial changes nothing |
| Properties.Crc32PresetStored | src/checksum/Checksum.cpp:20 | the CRC-32 preset holds poly 0xEDB88320, base and mask all ones, both flags set |
| Properties.Crc32PresetBySetters | src/checksum/Checksum.h:48-71 | building the CRC-32 preset from the one-argument constructor and the fluent setters gives the same record |
| Properties.Crc32CheckValue | src/checksum/Checksum.cpp:159-178 | the CRC-32 preset of "123456789" is 0xCBF43926 |
| Properties.Crc16CheckValue | src/checksum/Checksum.cpp:110-131 | the CRC-16 preset of "123456789" is 0xFEE8 |
| Properties.Crc8CheckValue | src/checksum/Checksum.cpp:78-98 | the CRC-8 preset of "123456789" is 0xF4 |
| Properties.Crc8OfSingleBytes | src/checksum/Checksum.cpp:18 | the CRC-8 preset of the byte 0x00 is 0x00 and of the byte 0x01 is the polynomial 0x07 |
| Properties.CatalogCheckValues | src/checksum/Checksum.cpp:18-20 | the catalogue definitions, with the presets' parameters, give the published check values 0xCBF43926, 0xFEE8 and 0xF4 |

## Left out

- `macros.h` is not part of this model. `NBYTE(n, x)` is taken to be
  `(x >> 8n) & 0xFF` and `BYTE_REVERSE(b)` the bit reversal of a byte
  (`BitOps.NthByte`, `BitOps.Reverse8`); both are assumptions.
- Signed `char`: input bytes are zero-extended, as on a platform whose
  `char` is unsigned. Where `char` is signed, bytes of 0x80 and above are
  sign-extended into bits 8..31. That leaves high bits set in the XOR digest
  and corrupts the CRC-32 register. The model does not cover that platform.
- Virtual dispatch, the CRTP return type of the setters, name hiding between
  `setBase(T)` and `setBase(uint32_t*)`, and the reference member of
  `Checksum` are C++ mechanics. The four variants are a closed datatype, and
  setters return a new record.
- Algorithms.CrcParams.SetPolynom is generic over the register type, so on a
  `CrcParams<bv32>` it stores its argument unreflected. The program cannot do
  that to a CRC-32 object, whose setter is overridden (Checksum.cpp:146-153);
  the CRC-32 setter is `Algorithms.Crc32SetPolynom`, and `SetPolynom` applied
  to a CRC-32 record models nothing in the program.
- The static initialisation order of the presets is not modelled; the presets
  are constants.
- Memory is a sequence of bytes and pointers are indices. An invalid range
  (`begin` past `end`) is undefined behaviour in the source and is excluded
  by the preconditions of `Driver.Calculate`.
- The generic driver works on elements of 1 to 8 bytes, given as `bv64`
  values together with their size. The iterator and `sizeof(value_type)` are
  not modelled.
- The inner loop of the generic driver (`Driver.FeedElement`) takes the
  element's bytes from `Driver.WordBytes`, computed once before the loop,
  rather than calling `NBYTE` inside it. The bytes and their order are the
  same.
- Concurrency and thread safety are out of scope: every operation is a pure
  function of its inputs.
