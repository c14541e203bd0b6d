/** The byte-swapping functions of a little-endian build: what they leave in memory is the big-endian form. */
module ByteOrder {
  import opened Bytes
  import opened TypedFields

  function Htobe16(u: bv16): bv16 {
    (u >> 8) | ((u & 0xff) << 8)
  }

  function Be16toh(u: bv16): bv16 {
    (u >> 8) | ((u & 0xff) << 8)
  }

  function Htobe32(u: bv32): bv32 {
    (u >> 24) | ((u >> 8) & 0xff00) | ((u << 8) & 0xff_0000) | (u << 24)
  }

  function Be32toh(u: bv32): bv32 {
    (u << 24) | ((u << 8) & 0xff_0000) | ((u >> 8) & 0xff00) | (u >> 24)
  }

  function Htobe64(u: bv64): bv64 {
    ((Htobe32((u & 0xffff_ffff) as bv32) as bv64) << 32) | (Htobe32((u >> 32) as bv32) as bv64)
  }

  function Be64toh(u: bv64): bv64 {
    ((Be32toh((u & 0xffff_ffff) as bv32) as bv64) << 32) | (Be32toh((u >> 32) as bv32) as bv64)
  }

  /** A word as a little-endian machine stores it. */
  function Stored16(x: bv16): seq<byte> {
    [(x & 0xff) as byte, (x >> 8) as byte]
  }

  function Stored32(x: bv32): seq<byte> {
    [(x & 0xff) as byte, ((x >> 8) & 0xff) as byte, ((x >> 16) & 0xff) as byte, (x >> 24) as byte]
  }

  function Stored64(x: bv64): seq<byte> {
    Stored32((x & 0xffff_ffff) as bv32) + Stored32((x >> 32) as bv32)
  }

  lemma Swap16(u: bv16)
    ensures Be16toh(Htobe16(u)) == u && Stored16(Htobe16(u)) == [(u >> 8) as byte, (u & 0xff) as byte]
  {
  }

  lemma Swap32(u: bv32)
    ensures Be32toh(Htobe32(u)) == u && Stored32(Htobe32(u)) == WordBytes(u)
  {
  }

  lemma Swap64(u: bv64)
    ensures Be64toh(Htobe64(u)) == u
    ensures Stored64(Htobe64(u)) == WordBytes((u >> 32) as bv32) + WordBytes((u & 0xffff_ffff) as bv32)
  {
  }

  // What the bytes in memory are to the rest of the model: the big-endian form of the number.

  lemma High16(u: bv16)
    ensures u as nat == 256 * ((u >> 8) as byte as nat) + ((u & 0xff) as byte as nat)
  {
  }

  /** The unsigned number in a word, by its halves. */
  function Number32(u: bv32): nat {
    0x1_0000 * ((u >> 16) as bv16 as nat) + ((u & 0xffff) as bv16 as nat)
  }

  function Number64(u: bv64): nat {
    WORD * Number32((u >> 32) as bv32) + Number32((u & 0xffff_ffff) as bv32)
  }

  lemma ValueOfTwo(a: byte, b: byte)
    ensures Value([a, b]) == 256 * (a as nat) + b as nat
  {
    assert [a, b][..1] == [a] && [a][..0] == [];
  }

  lemma Regroup(p: nat, x: nat, y: nat, z: nat)
    ensures 256 * (p * x + y) + z == (256 * p) * x + (256 * y + z)
  {
  }

  lemma {:induction false} ValueOfTwoParts(a: seq<byte>, b: seq<byte>)
    ensures Value(a + b) == Pow256(|b|) * Value(a) + Value(b)
  {
    if b == [] {
      assert a + b == a;
    } else {
      var front, last := b[..|b| - 1], b[|b| - 1] as nat;
      assert (a + b)[..|a + b| - 1] == a + front;
      ValueOfTwoParts(a, front);
      Regroup(Pow256(|front|), Value(a), Value(front), last);
      calc {
        Value(a + b);
        256 * Value(a + front) + last;
        256 * (Pow256(|front|) * Value(a) + Value(front)) + last;
        (256 * Pow256(|front|)) * Value(a) + (256 * Value(front) + last);
      }
    }
  }

  function Bytes16(u: bv16): (b: seq<byte>)
    ensures |b| == 2
  {
    [(u >> 8) as byte, (u & 0xff) as byte]
  }

  lemma ValueOfHalf(u: bv16)
    ensures Value(Bytes16(u)) == u as nat
  {
    High16(u);
    ValueOfTwo((u >> 8) as byte, (u & 0xff) as byte);
  }

  /** htobe16 and a store make the two bytes that the model puts. */
  lemma Stored16IsBigEndian(u: bv16)
    ensures Stored16(Htobe16(u)) == BigEndian(u as nat, 2)
  {
    Swap16(u);
    ValueOfHalf(u);
    BigEndianOfValue(Bytes16(u));
  }

  lemma WordInHalves(u: bv32)
    ensures WordBytes(u) == Bytes16((u >> 16) as bv16) + Bytes16((u & 0xffff) as bv16)
  {
  }

  lemma ValueOfWord(u: bv32)
    ensures Value(WordBytes(u)) == Number32(u)
  {
    hide WordBytes, Bytes16, Value;
    WordInHalves(u);
    var high, low := (u >> 16) as bv16, (u & 0xffff) as bv16;
    ValueOfHalf(high);
    ValueOfHalf(low);
    ValueOfTwoParts(Bytes16(high), Bytes16(low));
    assert Pow256(2) == 0x1_0000;
  }

  lemma Stored32IsBigEndian(u: bv32)
    ensures Stored32(Htobe32(u)) == BigEndian(Number32(u), 4)
  {
    Swap32(u);
    ValueOfWord(u);
    BigEndianOfValue(WordBytes(u));
  }

  lemma ValueOfLong(high: bv32, low: bv32)
    ensures BigEndian(WORD * Number32(high) + Number32(low), 8) == WordBytes(high) + WordBytes(low)
  {
    hide WordBytes, Number32, Value, BigEndian;
    ValueOfWord(high);
    ValueOfWord(low);
    ValueOfTwoParts(WordBytes(high), WordBytes(low));
    assert Pow256(4) == WORD;
    BigEndianOfValue(WordBytes(high) + WordBytes(low));
  }

  lemma Stored64IsBigEndian(u: bv64)
    ensures Stored64(Htobe64(u)) == BigEndian(Number64(u), 8)
  {
    hide Htobe64, Stored64, WordBytes, Number32, BigEndian;
    Swap64(u);
    ValueOfLong((u >> 32) as bv32, (u & 0xffff_ffff) as bv32);
  }

  // What the put and get methods do with a machine word is what the model does with its number.

  /** The signed number that has this two's complement. */
  function Signed(n: nat, width: nat): int {
    if 2 * n < Pow256(width) then n else n - Pow256(width)
  }

  /** The word that a put swaps and stores, and that a get loads and swaps. */
  ghost predicate Carries(unsigned: Kind, signed: Kind, n: nat, stored: seq<byte>)
    requires !unsigned.IsSigned() && signed.IsSigned() && unsigned.Width() == signed.Width() == |stored|
  {
    && unsigned.InRange(n) && unsigned.Encode(n) == stored && unsigned.Decode(stored) == n
    && signed.InRange(Signed(n, |stored|)) && signed.Encode(Signed(n, |stored|)) == stored
    && signed.Decode(stored) == Signed(n, |stored|)
  }

  lemma BigEndianCarries(unsigned: Kind, signed: Kind, n: nat)
    requires !unsigned.IsSigned() && signed.IsSigned() && unsigned.Width() == signed.Width()
    requires n < Pow256(signed.Width())
    ensures Carries(unsigned, signed, n, BigEndian(n, signed.Width()))
  {
    hide Pow256, BigEndian, Value;
    DecodeEncode(unsigned, n);
    DecodeEncode(signed, Signed(n, signed.Width()));
  }

  lemma ByteIsItself(b: byte)
    ensures U8.Encode(b as int) == [b] && U8.Decode([b]) == b as int
  {
    assert Value([b]) == b as nat && Pow256(1) == 256 by {
      assert [b][..0] == [];
    }
    BigEndianOfValue([b]);
  }

  lemma PutsSwapped16(u: bv16)
    ensures Carries(U16, S16, u as nat, Stored16(Htobe16(u)))
  {
    assert Pow256(2) == 0x1_0000;
    Stored16IsBigEndian(u);
    hide Stored16, Htobe16;
    BigEndianCarries(U16, S16, u as nat);
  }

  lemma PutsSwapped32(u: bv32)
    ensures Carries(U32, S32, Number32(u), Stored32(Htobe32(u)))
  {
    hide Stored32, Htobe32;
    ValueOfWord(u);
    Stored32IsBigEndian(u);
    BigEndianCarries(U32, S32, Number32(u));
  }

  lemma Number64IsSmall(u: bv64)
    ensures Number64(u) < Pow256(8)
  {
    hide Number32;
    ValueOfWord((u >> 32) as bv32);
    ValueOfWord((u & 0xffff_ffff) as bv32);
    assert Pow256(4) == WORD && Pow256(8) == WORD * WORD;
  }

  lemma PutsSwapped64(u: bv64)
    ensures Carries(U64, S64, Number64(u), Stored64(Htobe64(u)))
  {
    hide Stored64, Htobe64, Number32;
    Number64IsSmall(u);
    Stored64IsBigEndian(u);
    hide Number64;
    BigEndianCarries(U64, S64, Number64(u));
  }
}
