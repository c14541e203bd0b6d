/** Byte strings and the big-endian integers that packet fields hold. */
module Bytes {

  type byte = bv8

  /** Lengths, positions and serial numbers are unsigned 32-bit integers, whose sums wrap around. */
  const WORD: nat := 0x1_0000_0000

  type Word = n: nat | n < WORD

  function Sum32(a: Word, b: Word): Word {
    (a + b) % WORD
  }

  /** No object in memory is larger than a signed 32-bit integer can say. */
  const MAX_LENGTH: nat := 0x8000_0000

  type Size = n: nat | n < MAX_LENGTH

  type Chunk = s: seq<byte> | |s| < MAX_LENGTH

  function Pow256(width: nat): (p: nat)
    ensures p > 0
  {
    if width == 0 then 1 else 256 * Pow256(width - 1)
  }

  /** The `width` low-order bytes of n, most significant byte first. */
  function BigEndian(n: nat, width: nat): (b: seq<byte>)
    ensures |b| == width
  {
    if width == 0 then [] else BigEndian(n / 256, width - 1) + [(n % 256) as byte]
  }

  /** The number a big-endian byte string denotes. */
  function Value(b: seq<byte>): (n: nat)
    ensures n < Pow256(|b|)
  {
    if b == [] then 0 else 256 * Value(b[..|b| - 1]) + b[|b| - 1] as nat
  }

  lemma NextByte(b: byte)
    requires b < 255
    ensures (b + 1) as nat == b as nat + 1
  {
  }

  lemma ByteFromValue(b: byte)
    ensures (b as nat) as byte == b
  {
  }

  lemma {:induction false} ByteOfNat(n: nat)
    requires n < 256
    ensures n as byte as nat == n
  {
    if n > 0 {
      var b := (n - 1) as byte;
      ByteOfNat(n - 1);
      NextByte(b);
      ByteFromValue(b + 1);
    }
  }

  lemma {:induction false} ValueOfBigEndian(n: nat, width: nat)
    requires n < Pow256(width)
    ensures Value(BigEndian(n, width)) == n
  {
    if width > 0 {
      ValueOfBigEndian(n / 256, width - 1);
      ByteOfNat(n % 256);
      assert BigEndian(n, width)[..width - 1] == BigEndian(n / 256, width - 1);
    }
  }

  lemma LastDigit(n: nat, k: nat)
    requires k < 256
    ensures (256 * n + k) / 256 == n && (256 * n + k) % 256 == k
  {
  }

  lemma OneDigitMore(n: nat, last: byte, width: nat)
    ensures BigEndian(256 * n + last as nat, width + 1) == BigEndian(n, width) + [last]
  {
    LastDigit(n, last as nat);
    ByteFromValue(last);
  }

  lemma {:induction false} BigEndianOfValue(b: seq<byte>)
    ensures BigEndian(Value(b), |b|) == b
  {
    hide BigEndian;
    if b != [] {
      var front, last := b[..|b| - 1], b[|b| - 1];
      BigEndianOfValue(front);
      OneDigitMore(Value(front), last, |front|);
      assert b == front + [last];
    } else {
      NoDigits();
    }
  }

  lemma NoDigits()
    ensures BigEndian(0, 0) == []
  {
  }

  /** b with the bytes from `pos` on replaced by `field`. */
  function Patch(b: seq<byte>, pos: nat, field: seq<byte>): (r: seq<byte>)
    requires pos + |field| <= |b|
    ensures |r| == |b|
    ensures r[pos..pos + |field|] == field
    ensures r[..pos] == b[..pos] && r[pos + |field|..] == b[pos + |field|..]
  {
    b[..pos] + field + b[pos + |field|..]
  }

  /** A patch changes nothing outside its own bytes. */
  lemma PatchOutside(b: seq<byte>, pos: nat, field: seq<byte>, i: nat, j: nat)
    requires pos + |field| <= |b|
    requires i <= j <= |b| && (j <= pos || pos + |field| <= i)
    ensures Patch(b, pos, field)[i..j] == b[i..j]
  {
    var r, end := Patch(b, pos, field), pos + |field|;
    if j <= pos {
      assert r[i..j] == r[..pos][i..j] && b[i..j] == b[..pos][i..j];
    } else {
      assert r[i..j] == r[end..][i - end..j - end] && b[i..j] == b[end..][i - end..j - end];
    }
  }

  lemma PatchNothing(b: seq<byte>, pos: nat)
    requires pos <= |b|
    ensures Patch(b, pos, []) == b
  {
  }

  /** Adjacent patches make one. */
  lemma PatchOnward(b: seq<byte>, pos: nat, field: seq<byte>, more: seq<byte>)
    requires pos + |field| + |more| <= |b|
    ensures Patch(Patch(b, pos, field), pos + |field|, more) == Patch(b, pos, field + more)
  {
    var once := Patch(b, pos, field);
    assert once[..pos + |field|] == b[..pos] + field;
    assert once[pos + |field| + |more|..] == once[pos + |field|..][|more|..];
  }

  /** The four bytes of a word, most significant byte first. */
  function WordBytes(c: bv32): (b: seq<byte>)
    ensures |b| == 4
  {
    [(c >> 24) as byte, ((c >> 16) & 0xFF) as byte, ((c >> 8) & 0xFF) as byte, (c & 0xFF) as byte]
  }

  lemma WordBytesInjective(c: bv32, d: bv32)
    requires WordBytes(c) == WordBytes(d)
    ensures c == d
  {
    assert WordBytes(c)[0] == WordBytes(d)[0] && WordBytes(c)[1] == WordBytes(d)[1];
    assert WordBytes(c)[2] == WordBytes(d)[2] && WordBytes(c)[3] == WordBytes(d)[3];
  }
}
