/**
 The packet checksum: a loop over a table of 256 words, proved to compute the remainder that
 bit-by-bit division yields, and to catch every error burst of up to 32 bits.
 */
module Crc {
  import opened Bytes
  import opened CrcTable

  // The reference definition: every bit is shifted through the register, one at a time.

  function BitWord(b: bool): bv32 {
    if b then 1 else 0
  }

  /** The bits of a byte in the order they enter the division, least significant first. */
  function ByteBits(b: byte): seq<bool> {
    [b & 1 != 0, b & 2 != 0, b & 4 != 0, b & 8 != 0, b & 16 != 0, b & 32 != 0, b & 64 != 0, b & 128 != 0]
  }

  function Bits(s: seq<byte>): (bits: seq<bool>)
    ensures |bits| == 8 * |s|
  {
    if s == [] then [] else ByteBits(s[0]) + Bits(s[1..])
  }

  /** The register after one more bit. */
  function Fed(s: bv32, b: bool): bv32 {
    BitStep(Xor(s, BitWord(b)))
  }

  function Divide(bits: seq<bool>, s: bv32): bv32 {
    if bits == [] then s else Divide(bits[1..], Fed(s, bits[0]))
  }

  /** CRC-32 with all-ones initial register and all-ones final complement. */
  function Crc32(s: seq<byte>): bv32 {
    Xor(Divide(Bits(s), 0xFFFF_FFFF), 0xFFFF_FFFF)
  }

  lemma {:induction false} DivideAppend(u: seq<bool>, v: seq<bool>, s: bv32)
    ensures Divide(u + v, s) == Divide(v, Divide(u, s))
  {
    if u == [] {
      assert u + v == v;
    } else {
      assert (u + v)[1..] == u[1..] + v;
      DivideAppend(u[1..], v, Fed(s, u[0]));
    }
  }

  lemma {:induction false} BitsAppend(a: seq<byte>, b: seq<byte>)
    ensures Bits(a + b) == Bits(a) + Bits(b)
  {
    if a == [] {
      assert a + b == b;
    } else {
      assert (a + b)[1..] == a[1..] + b;
      BitsAppend(a[1..], b);
    }
  }

  // One table look-up does the work of eight division steps.

  lemma XorAssociates(x: bv32, y: bv32, z: bv32)
    ensures Xor(Xor(x, y), z) == Xor(x, Xor(y, z))
  {
  }

  lemma LowBitApart(r: bv32)
    ensures Xor(r & 1, r & 0xFFFF_FFFE) == r
    ensures BitStep(r & 0xFFFF_FFFE) == r >> 1
  {
  }

  /** Feeding one bit leaves the remaining bits of r, moved down, still to be fed. */
  lemma PeelBit(x: bv32, r: bv32)
    ensures BitStep(Xor(x, r)) == Xor(BitStep(Xor(x, r & 1)), r >> 1)
  {
    hide BitStep, Xor;
    var low, rest := r & 1, r & 0xFFFF_FFFE;
    LowBitApart(r);
    XorAssociates(x, low, rest);
    BitStepXor(Xor(x, low), rest);
  }

  lemma BitsOfByte(b: byte)
    ensures var r := b as bv32;
            && BitWord(b & 1 != 0) == r & 1
            && BitWord(b & 2 != 0) == (r >> 1) & 1
            && BitWord(b & 4 != 0) == ((r >> 1) >> 1) & 1
            && BitWord(b & 8 != 0) == (((r >> 1) >> 1) >> 1) & 1
            && BitWord(b & 16 != 0) == ((((r >> 1) >> 1) >> 1) >> 1) & 1
            && BitWord(b & 32 != 0) == (((((r >> 1) >> 1) >> 1) >> 1) >> 1) & 1
            && BitWord(b & 64 != 0) == ((((((r >> 1) >> 1) >> 1) >> 1) >> 1) >> 1) & 1
            && BitWord(b & 128 != 0) == (((((((r >> 1) >> 1) >> 1) >> 1) >> 1) >> 1) >> 1) & 1
            && (((((((r >> 1) >> 1) >> 1) >> 1) >> 1) >> 1) >> 1) >> 1 == 0
  {
  }

  lemma TopOfWord(y: bv32)
    ensures ByteStep(y & 0xFFFF_FF00) == y >> 8
    ensures y == Xor(y & 0xFF, y & 0xFFFF_FF00)
    ensures ((y & 0xFF) as bv8) as bv32 == y & 0xFF
  {
  }

  lemma ByteStepSplits(y: bv32)
    ensures ByteStep(y) == Xor(Lookup((y & 0xFF) as bv8), y >> 8)
  {
    TopOfWord(y);
    hide ByteStep, Xor, Lookup;
    ByteStepXor(y & 0xFF, y & 0xFFFF_FF00);
    TableEntry((y & 0xFF) as bv8);
  }

  lemma XorZero(x: bv32)
    ensures Xor(x, 0) == x
  {
  }

  lemma DivideByteBits(b: byte, s: bv32)
    ensures Divide(ByteBits(b), s) == ByteStep(Xor(s, b as bv32))
  {
    hide BitStep, Xor, Divide;
    var bits, r0 := ByteBits(b), b as bv32;
    var r1 := r0 >> 1;
    var r2 := r1 >> 1;
    var r3 := r2 >> 1;
    var r4 := r3 >> 1;
    var r5 := r4 >> 1;
    var r6 := r5 >> 1;
    var r7 := r6 >> 1;
    BitsOfByte(b);
    var x1 := Fed(s, bits[0]);
    var x2 := Fed(x1, bits[1]);
    var x3 := Fed(x2, bits[2]);
    var x4 := Fed(x3, bits[3]);
    var x5 := Fed(x4, bits[4]);
    var x6 := Fed(x5, bits[5]);
    var x7 := Fed(x6, bits[6]);
    var x8 := Fed(x7, bits[7]);
    PeelBit(s, r0);
    PeelBit(x1, r1);
    PeelBit(x2, r2);
    PeelBit(x3, r3);
    PeelBit(x4, r4);
    PeelBit(x5, r5);
    PeelBit(x6, r6);
    PeelBit(x7, r7);
    XorZero(x8);
    DivideEight(bits, s);
  }

  lemma DivideOne(bits: seq<bool>, k: nat, s: bv32)
    requires k < |bits|
    ensures Divide(bits[k..], s) == Divide(bits[k + 1..], Fed(s, bits[k]))
  {
    assert bits[k..][1..] == bits[k + 1..];
  }

  lemma DivideEight(bits: seq<bool>, s: bv32)
    requires |bits| == 8
    ensures Divide(bits, s)
         == Fed(Fed(Fed(Fed(Fed(Fed(Fed(Fed(s, bits[0]), bits[1]), bits[2]), bits[3]),
                         bits[4]), bits[5]), bits[6]), bits[7])
  {
    hide Fed;
    var x1 := Fed(s, bits[0]);
    var x2 := Fed(x1, bits[1]);
    var x3 := Fed(x2, bits[2]);
    var x4 := Fed(x3, bits[3]);
    var x5 := Fed(x4, bits[4]);
    var x6 := Fed(x5, bits[5]);
    var x7 := Fed(x6, bits[6]);
    assert bits[0..] == bits;
    DivideOne(bits, 0, s);
    DivideOne(bits, 1, x1);
    DivideOne(bits, 2, x2);
    DivideOne(bits, 3, x3);
    DivideOne(bits, 4, x4);
    DivideOne(bits, 5, x5);
    DivideOne(bits, 6, x6);
    DivideOne(bits, 7, x7);
  }

  lemma HighPart(crc: bv32, b: byte)
    ensures Xor(crc, b as bv32) >> 8 == crc >> 8
  {
  }

  /** The register after one more byte, by table look-up. */
  function Updated(crc: bv32, b: byte): bv32 {
    Xor(Lookup((Xor(crc, b as bv32) & 0xFF) as bv8), crc >> 8)
  }

  lemma UpdatedIsByteStep(crc: bv32, b: byte)
    ensures Updated(crc, b) == ByteStep(Xor(crc, b as bv32))
  {
    hide Lookup, ByteStep, Xor;
    HighPart(crc, b);
    ByteStepSplits(Xor(crc, b as bv32));
  }

  /** One table step does the division steps of one more byte. */
  lemma UpdatedDivides(s: seq<byte>, b: byte, crc: bv32, init: bv32)
    requires crc == Divide(Bits(s), init)
    ensures Updated(crc, b) == Divide(Bits(s + [b]), init)
  {
    hide Updated, ByteStep, Xor, Fed;
    UpdatedIsByteStep(crc, b);
    DivideByteBits(b, crc);
    BitsAppend(s, [b]);
    assert [b][1..] == [] && ByteBits(b) + Bits([]) == ByteBits(b);
    DivideAppend(Bits(s), ByteBits(b), init);
  }

  /** The checksum of `size` bytes of buf from `from` on. */
  method Checksum(buf: array<byte>, from: nat, size: Size) returns (crc: bv32)
    requires from + size <= buf.Length
    ensures crc == Crc32(buf[from..from + size])
  {
    hide Updated, Divide;
    crc := 0xFFFF_FFFF;
    DivideNothing(crc);
    var i := 0;
    while i < size
      invariant 0 <= i <= size
      invariant crc == Divide(Bits(buf[from..from + i]), 0xFFFF_FFFF)
    {
      var b := buf[from + i];
      UpdatedDivides(buf[from..from + i], b, crc, 0xFFFF_FFFF);
      assert buf[from..from + i + 1] == buf[from..from + i] + [b];
      crc := Updated(crc, b);
      i := i + 1;
    }
    crc := crc ^ 0xFFFF_FFFF;
  }

  lemma DivideNothing(s: bv32)
    ensures Divide(Bits([]), s) == s
  {
  }

  // Error bursts.

  lemma BitStepInjective(s: bv32, t: bv32)
    requires BitStep(s) == BitStep(t)
    ensures s == t
  {
  }

  lemma XorCancels(s: bv32, t: bv32, w: bv32)
    requires Xor(s, w) == Xor(t, w)
    ensures s == t
  {
  }

  lemma FedKeepsApart(s: bv32, t: bv32, b: bool)
    requires s != t
    ensures Fed(s, b) != Fed(t, b)
  {
    hide BitStep, Xor;
    if Fed(s, b) == Fed(t, b) {
      BitStepInjective(Xor(s, BitWord(b)), Xor(t, BitWord(b)));
      XorCancels(s, t, BitWord(b));
    }
  }

  /** Equal bits never bring two different registers together. */
  lemma {:induction false} SuffixKeepsApart(v: seq<bool>, s: bv32, t: bv32)
    requires s != t
    ensures Divide(v, s) != Divide(v, t)
  {
    hide Fed;
    if v != [] {
      var s', t' := Fed(s, v[0]), Fed(t, v[0]);
      FedKeepsApart(s, t, v[0]);
      SuffixKeepsApart(v[1..], s', t');
    }
  }

  /** limit can be halved n times and is still not 0. */
  ghost predicate Halves(n: nat, limit: bv32) {
    0 < limit <= 0x8000_0000 && (n > 0 ==> Halves(n - 1, limit >> 1))
  }

  /** Only bits below the limit. */
  ghost predicate Below(d: bv32, limit: bv32) {
    d < limit
  }

  lemma {:induction false} HalvesLessOften(n: nat, k: nat, limit: bv32)
    requires Halves(n, limit) && k <= n
    ensures Halves(k, limit)
  {
    if k > 0 {
      HalvesLessOften(n - 1, k - 1, limit >> 1);
    }
  }

  lemma TopBitHalves()
    ensures Halves(31, 0x8000_0000)
  {
    assert Halves(0, 0x0000_0001) && Halves(1, 0x0000_0002) && Halves(2, 0x0000_0004) && Halves(3, 0x0000_0008);
    assert Halves(4, 0x0000_0010) && Halves(5, 0x0000_0020) && Halves(6, 0x0000_0040) && Halves(7, 0x0000_0080);
    assert Halves(8, 0x0000_0100) && Halves(9, 0x0000_0200) && Halves(10, 0x0000_0400) && Halves(11, 0x0000_0800);
    assert Halves(12, 0x0000_1000) && Halves(13, 0x0000_2000) && Halves(14, 0x0000_4000) && Halves(15, 0x0000_8000);
    assert Halves(16, 0x0001_0000) && Halves(17, 0x0002_0000) && Halves(18, 0x0004_0000) && Halves(19, 0x0008_0000);
    assert Halves(20, 0x0010_0000) && Halves(21, 0x0020_0000) && Halves(22, 0x0040_0000) && Halves(23, 0x0080_0000);
    assert Halves(24, 0x0100_0000) && Halves(25, 0x0200_0000) && Halves(26, 0x0400_0000) && Halves(27, 0x0800_0000);
    assert Halves(28, 0x1000_0000) && Halves(29, 0x2000_0000) && Halves(30, 0x4000_0000) && Halves(31, 0x8000_0000);
  }

  /** A step either shifts the register or sets its top bit. */
  lemma FedShiftsOrSetsTop(d: bv32, e: bool)
    ensures Fed(d, e) == d >> 1 || Fed(d, e) & 0x8000_0000 == 0x8000_0000
  {
  }

  lemma TopIsNotBelow(x: bv32, limit: bv32)
    requires x & 0x8000_0000 == 0x8000_0000 && limit <= 0x8000_0000
    ensures !Below(x, limit >> 1)
  {
  }

  lemma HalfBelow(d: bv32, limit: bv32)
    requires Below(d >> 1, limit >> 1)
    ensures Below(d, limit)
  {
  }

  lemma StepBack(d: bv32, e: bool, limit: bv32)
    requires limit <= 0x8000_0000 && Below(Fed(d, e), limit >> 1)
    ensures Below(d, limit)
  {
    hide Fed, Below;
    FedShiftsOrSetsTop(d, e);
    if Fed(d, e) == d >> 1 {
      HalfBelow(d, limit);
    } else {
      TopIsNotBelow(Fed(d, e), limit);
    }
  }

  lemma XorShuffles(s: bv32, v: bv32, t: bv32, w: bv32)
    ensures Xor(Xor(s, v), Xor(t, w)) == Xor(Xor(s, t), Xor(v, w))
  {
    XorAssociates(s, v, Xor(t, w));
    XorAssociates(v, t, w);
    XorCommutes(v, t);
    XorAssociates(t, v, w);
    XorAssociates(s, t, Xor(v, w));
  }

  lemma XorRegroups(s: bv32, a: bool, t: bv32, b: bool)
    ensures Xor(Xor(s, BitWord(a)), Xor(t, BitWord(b))) == Xor(Xor(s, t), BitWord(a != b))
  {
    XorShuffles(s, BitWord(a), t, BitWord(b));
    assert Xor(BitWord(a), BitWord(b)) == BitWord(a != b);
  }

  lemma FedXor(s: bv32, a: bool, t: bv32, b: bool)
    ensures Xor(Fed(s, a), Fed(t, b)) == Fed(Xor(s, t), a != b)
  {
    BitStepXor(Xor(s, BitWord(a)), Xor(t, BitWord(b)));
    XorRegroups(s, a, t, b);
  }

  lemma CloseStepsBack(s: bv32, a: bool, t: bv32, b: bool, limit: bv32)
    requires limit <= 0x8000_0000 && Below(Xor(Fed(s, a), Fed(t, b)), limit >> 1)
    ensures Below(Xor(s, t), limit)
  {
    hide Fed, Xor, Below;
    FedXor(s, a, t, b);
    StepBack(Xor(s, t), a != b, limit);
  }

  lemma NoDifference(s: bv32, limit: bv32)
    requires Halves(0, limit)
    ensures Below(Xor(s, s), limit)
  {
  }

  /** Registers that n more bits can still make equal differ in at most the n low bits. */
  lemma {:induction false} ConvergingRegistersAreClose(u: seq<bool>, v: seq<bool>, s: bv32, t: bv32, limit: bv32)
    requires |u| == |v| && Divide(u, s) == Divide(v, t) && Halves(|u|, limit)
    ensures Below(Xor(s, t), limit)
  {
    hide Fed, Xor, Below;
    if u == [] {
      NoDifference(s, limit);
    } else {
      ConvergingRegistersAreClose(u[1..], v[1..], Fed(s, u[0]), Fed(t, v[0]), limit >> 1);
      CloseStepsBack(s, u[0], t, v[0], limit);
    }
  }

  /** A flipped bit puts the registers out of the reach of 31 more bits. */
  lemma FirstErrorIsFar(s: bv32, a: bool, b: bool)
    requires a != b
    ensures !Below(Xor(Fed(s, a), Fed(s, b)), 0x8000_0000)
  {
    FedXor(s, a, s, b);
    assert Xor(s, s) == 0;
  }

  /** Two different windows of at most 32 bits leave different registers. */
  lemma {:induction false} WindowsDiffer(u: seq<bool>, v: seq<bool>, s: bv32)
    requires |u| == |v| <= 32 && u != v
    ensures Divide(u, s) != Divide(v, s)
  {
    hide Fed, Xor, Halves, Below;
    if u[0] == v[0] {
      assert u == [u[0]] + u[1..] && v == [v[0]] + v[1..];
      WindowsDiffer(u[1..], v[1..], Fed(s, u[0]));
    } else {
      FirstErrorIsFar(s, u[0], v[0]);
      TopBitHalves();
      HalvesLessOften(31, |u| - 1, 0x8000_0000);
      if Divide(u[1..], Fed(s, u[0])) == Divide(v[1..], Fed(s, v[0])) {
        ConvergingRegistersAreClose(u[1..], v[1..], Fed(s, u[0]), Fed(s, v[0]), 0x8000_0000);
      }
    }
  }

  lemma BytesFromBits(a: byte, b: byte)
    requires ByteBits(a) == ByteBits(b)
    ensures a == b
  {
    assert forall k | 0 <= k < 8 :: ByteBits(a)[k] == ByteBits(b)[k];
    SameBits(a, b);
  }

  lemma SameBits(a: byte, b: byte)
    requires (a & 1 != 0) == (b & 1 != 0) && (a & 2 != 0) == (b & 2 != 0)
    requires (a & 4 != 0) == (b & 4 != 0) && (a & 8 != 0) == (b & 8 != 0)
    requires (a & 16 != 0) == (b & 16 != 0) && (a & 32 != 0) == (b & 32 != 0)
    requires (a & 64 != 0) == (b & 64 != 0) && (a & 128 != 0) == (b & 128 != 0)
    ensures a == b
  {
  }

  lemma {:induction false} BitsInjective(a: seq<byte>, b: seq<byte>)
    requires |a| == |b| && Bits(a) == Bits(b)
    ensures a == b
  {
    if a != [] {
      assert Bits(a)[..8] == ByteBits(a[0]) && Bits(b)[..8] == ByteBits(b[0]);
      assert Bits(a)[8..] == Bits(a[1..]) && Bits(b)[8..] == Bits(b[1..]);
      BytesFromBits(a[0], b[0]);
      BitsInjective(a[1..], b[1..]);
      assert a == [a[0]] + a[1..] && b == [b[0]] + b[1..];
    }
  }

  /** a and b agree on every bit outside the n bits from bit i on. */
  ghost predicate DifferWithin(a: seq<byte>, b: seq<byte>, i: nat, n: nat)
    requires |a| == |b|
  {
    && i + n <= 8 * |a|
    && Bits(a)[..i] == Bits(b)[..i]
    && Bits(a)[i + n..] == Bits(b)[i + n..]
  }

  /** Every change confined to 32 consecutive bits changes the checksum. */
  lemma BurstChangesCrc(a: seq<byte>, b: seq<byte>, i: nat, n: nat)
    requires |a| == |b| && a != b
    requires n <= 32 && DifferWithin(a, b, i, n)
    ensures Crc32(a) != Crc32(b)
  {
    var x, y := Bits(a), Bits(b);
    var start := Divide(x[..i], 0xFFFF_FFFF);
    if x[i..i + n] == y[i..i + n] {
      assert x == x[..i] + x[i..i + n] + x[i + n..];
      assert y == y[..i] + y[i..i + n] + y[i + n..];
      BitsInjective(a, b);
    }
    WindowsDiffer(x[i..i + n], y[i..i + n], start);
    DivideInThree(x, i, n);
    DivideInThree(y, i, n);
    SuffixKeepsApart(x[i + n..], Divide(x[i..i + n], start), Divide(y[i..i + n], start));
    if Crc32(a) == Crc32(b) {
      XorCancels(Divide(x, 0xFFFF_FFFF), Divide(y, 0xFFFF_FFFF), 0xFFFF_FFFF);
    }
  }

  lemma DivideInThree(x: seq<bool>, i: nat, n: nat)
    requires i + n <= |x|
    ensures Divide(x, 0xFFFF_FFFF) == Divide(x[i + n..], Divide(x[i..i + n], Divide(x[..i], 0xFFFF_FFFF)))
  {
    hide Divide;
    assert x == x[..i] + (x[i..i + n] + x[i + n..]);
    DivideAppend(x[..i], x[i..i + n] + x[i + n..], 0xFFFF_FFFF);
    DivideAppend(x[i..i + n], x[i + n..], Divide(x[..i], 0xFFFF_FFFF));
  }

  lemma BitsSplit(a: seq<byte>, i: nat)
    requires i <= |a|
    ensures Bits(a)[..8 * i] == Bits(a[..i]) && Bits(a)[8 * i..] == Bits(a[i..])
  {
    assert a == a[..i] + a[i..];
    BitsAppend(a[..i], a[i..]);
  }

  /** The same for bytes: a change confined to four consecutive bytes changes the checksum. */
  lemma FourByteWindowChangesCrc(a: seq<byte>, b: seq<byte>, i: nat)
    requires |a| == |b| && a != b && i <= |a|
    requires a[..i] == b[..i]
    requires i + 4 <= |a| ==> a[i + 4..] == b[i + 4..]
    ensures Crc32(a) != Crc32(b)
  {
    hide Bits;
    var n := if i + 4 <= |a| then 4 else |a| - i;
    BitsSplit(a, i);
    BitsSplit(b, i);
    BitsSplit(a, i + n);
    BitsSplit(b, i + n);
    assert a[i + n..] == b[i + n..];
    BurstChangesCrc(a, b, 8 * i, 8 * n);
  }

  /** 32 is the limit: this change of 33 consecutive bits, the polynomial itself, goes unnoticed. */
  lemma ThirtyThreeBitBurstEscapes()
    ensures var zero, burst := [0, 0, 0, 0, 0], [0x41, 0x06, 0x71, 0xDB, 0x01];
            DifferWithin(zero, burst, 0, 33) && Crc32(zero) == Crc32(burst)
  {
    var zero: seq<byte>, burst: seq<byte> := [0, 0, 0, 0, 0], [0x41, 0x06, 0x71, 0xDB, 0x01];
    BitsSplit(zero, 4);
    BitsSplit(burst, 4);
    LastBits(zero);
    LastBits(burst);
    assert ByteBits(0)[1..] == ByteBits(1)[1..];
    RegistersMeet();
    assert zero[0..] == zero && burst[0..] == burst;
  }

  lemma LastBits(s: seq<byte>)
    requires |s| == 5
    ensures Bits(s)[33..] == ByteBits(s[4])[1..]
  {
    BitsSplit(s, 4);
    assert s[4..][1..] == [] && ByteBits(s[4]) + [] == ByteBits(s[4]);
    assert Bits(s[4..]) == ByteBits(s[4]);
    hide Bits, ByteBits;
    assert Bits(s)[33..] == Bits(s)[32..][1..];
    assert s[4..] == [s[4]];
  }

  lemma RegistersMeet()
    ensures var zero, burst := [0, 0, 0, 0, 0], [0x41, 0x06, 0x71, 0xDB, 0x01];
            Divide(Bits(zero[0..]), 0xFFFF_FFFF) == Divide(Bits(burst[0..]), 0xFFFF_FFFF)
  {
    hide Divide, Bits;
    var zero: seq<byte>, burst: seq<byte> := [0, 0, 0, 0, 0], [0x41, 0x06, 0x71, 0xDB, 0x01];
    DivideByte(zero, 0, 0xFFFFFFFF, 0x2DFD1072);
    DivideByte(zero, 1, 0x2DFD1072, 0xBE26ED00);
    DivideByte(zero, 2, 0xBE26ED00, 0x00BE26ED);
    DivideByte(zero, 3, 0x00BE26ED, 0xDEBB20E3);
    DivideByte(zero, 4, 0xDEBB20E3, 0x39DD08E2);
    DivideByte(burst, 0, 0xFFFFFFFF, 0x2C266174);
    DivideByte(burst, 1, 0x2C266174, 0xBE273671);
    DivideByte(burst, 2, 0xBE273671, 0x00BE2736);
    DivideByte(burst, 3, 0x00BE2736, 0xDEBB20E2);
    DivideByte(burst, 4, 0xDEBB20E2, 0x39DD08E2);
  }

  lemma DivideByte(s: seq<byte>, k: nat, x: bv32, y: bv32)
    requires k < |s| && ByteStep(Xor(x, s[k] as bv32)) == y
    ensures Divide(Bits(s[k..]), x) == Divide(Bits(s[k + 1..]), y)
  {
    assert s[k..][1..] == s[k + 1..];
    DivideAppend(ByteBits(s[k]), Bits(s[k + 1..]), x);
    DivideByteBits(s[k], x);
  }

  const NINE_DIGITS: seq<byte> := [0x31, 0x32, 0x33, 0x34, 0x35, 0x36, 0x37, 0x38, 0x39]

  lemma NothingDivides(s: seq<byte>)
    ensures forall x: bv32 :: Divide(Bits(s[|s|..]), x) == x && Divide(Bits([]), x) == x
  {
    assert s[|s|..] == [];
  }

  lemma FirstDigits()
    ensures Divide(Bits(NINE_DIGITS), 0xFFFFFFFF) == Divide(Bits(NINE_DIGITS[4..]), 0x641C1F5C)
  {
    hide Divide, Bits;
    var s := NINE_DIGITS;
    assert s[0..] == s;
    DivideByte(s, 0, 0xFFFFFFFF, 0x7C231048);
    DivideByte(s, 1, 0x7C231048, 0xB0ACBB32);
    DivideByte(s, 2, 0xB0ACBB32, 0x77B79C2D);
    DivideByte(s, 3, 0x77B79C2D, 0x641C1F5C);
  }

  lemma LastDigits()
    ensures Divide(Bits(NINE_DIGITS[4..]), 0x641C1F5C) == 0x340BC6D9
  {
    var s := NINE_DIGITS;
    NothingDivides(s);
    hide Divide, Bits;
    DivideByte(s, 4, 0x641C1F5C, 0x340AC5E3);
    DivideByte(s, 5, 0x340AC5E3, 0xF68D2C9E);
    DivideByte(s, 6, 0xF68D2C9E, 0xAFFC9660);
    DivideByte(s, 7, 0xAFFC9660, 0x651F2550);
    DivideByte(s, 8, 0x651F2550, 0x340BC6D9);
  }

  /** The check value of CRC-32, that of the digits 1 to 9, and the checksum of nothing, which is 0. */
  lemma CheckValue()
    ensures Crc32([0x31, 0x32, 0x33, 0x34, 0x35, 0x36, 0x37, 0x38, 0x39]) == 0xCBF4_3926
    ensures Crc32([]) == 0
  {
    NothingDivides([]);
    hide Divide, Bits;
    FirstDigits();
    LastDigits();
  }
}
