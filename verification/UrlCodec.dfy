/** URL encoding as in sections 2.1 and 2.3 of RFC 3986, with '+' for a space, on strings that end at a zero byte. */
module UrlCodec {
  import opened Bytes

  const SPACE: byte := 32
  const PERCENT: byte := 37
  const PLUS: byte := 43

  predicate IsDigit(c: byte) {
    48 <= c <= 57
  }

  predicate IsUpper(c: byte) {
    65 <= c <= 90
  }

  predicate IsLower(c: byte) {
    97 <= c <= 122
  }

  /** Letters, digits and "-_.~". */
  predicate Unreserved(c: byte) {
    IsDigit(c) || IsUpper(c) || IsLower(c) || c == 45 || c == 95 || c == 46 || c == 126
  }

  function ToLower(c: byte): byte {
    if IsUpper(c) then c + 32 else c
  }

  /** The value of a hexadecimal digit; of any other character, whatever the arithmetic of chars gives. */
  function FromHex(c: byte): byte {
    if IsDigit(c) then c - 48 else ToLower(c) - 97 + 10
  }

  function ToHex(code: byte): byte {
    var low := code & 15;
    if low < 10 then 48 + low else 97 + (low - 10)
  }

  function FromHexPair(high: byte, low: byte): byte {
    (FromHex(high) << 4) | FromHex(low)
  }

  lemma HexPairReadsBack(c: byte)
    ensures FromHexPair(ToHex(c >> 4), ToHex(c & 15)) == c
    ensures IsHexDigit(ToHex(c))
  {
  }

  /** A digit as the encoder writes it. */
  predicate IsHexDigit(c: byte) {
    IsDigit(c) || 97 <= c <= 102
  }

  lemma HexPairWritesBack(high: byte, low: byte)
    requires IsHexDigit(high) && IsHexDigit(low)
    ensures ToHex(FromHexPair(high, low) >> 4) == high && ToHex(FromHexPair(high, low) & 15) == low
  {
  }

  function EncodeByte(c: byte): (e: seq<byte>)
    ensures 1 <= |e| <= 3
  {
    if Unreserved(c) then [c]
    else if c == SPACE then [PLUS]
    else [PERCENT, ToHex(c >> 4), ToHex(c & 15)]
  }

  function Encode(s: seq<byte>): (e: seq<byte>)
    ensures |s| <= |e| <= 3 * |s|
  {
    if s == [] then [] else EncodeByte(s[0]) + Encode(s[1..])
  }

  /** How many characters the decoder takes at once; a '%' without two characters behind it goes alone. */
  function Taken(s: seq<byte>): (n: nat)
    requires s != []
    ensures 1 <= n <= |s|
  {
    if s[0] == PERCENT && |s| >= 3 then 3 else 1
  }

  function DecodeFirst(s: seq<byte>): (d: seq<byte>)
    requires s != []
    ensures |d| <= 1
  {
    if s[0] == PERCENT then (if |s| >= 3 then [FromHexPair(s[1], s[2])] else [])
    else if s[0] == PLUS then [SPACE]
    else [s[0]]
  }

  function Decode(s: seq<byte>): (d: seq<byte>)
    ensures |d| <= |s|
  {
    if s == [] then [] else DecodeFirst(s) + Decode(s[Taken(s)..])
  }

  lemma DecodeOne(c: byte, rest: seq<byte>)
    ensures Decode(EncodeByte(c) + rest) == [c] + Decode(rest)
  {
    var s := EncodeByte(c) + rest;
    HexPairReadsBack(c);
    assert s[Taken(s)..] == rest;
  }

  /** No byte, not even a zero one, is changed by encoding and decoding. */
  lemma {:induction false} DecodeOfEncode(s: seq<byte>)
    ensures Decode(Encode(s)) == s
  {
    if s != [] {
      DecodeOne(s[0], Encode(s[1..]));
      DecodeOfEncode(s[1..]);
    }
  }

  // The characters themselves.

  const LOWER_DIGITS: seq<byte> := [48, 49, 50, 51, 52, 53, 54, 55, 56, 57, 97, 98, 99, 100, 101, 102]
  const UPPER_DIGITS: seq<byte> := [48, 49, 50, 51, 52, 53, 54, 55, 56, 57, 65, 66, 67, 68, 69, 70]

  /** The encoder writes lower-case digits; the decoder reads digits in either case. */
  lemma HexDigitsOf(i: nat)
    requires i < 16
    ensures ToHex(i as byte) == LOWER_DIGITS[i]
    ensures FromHex(LOWER_DIGITS[i]) == i as byte && FromHex(UPPER_DIGITS[i]) == i as byte
  {
  }

  /** Upper-case digits stand for the same byte as the lower-case ones that the encoder writes. */
  lemma EitherCaseIsRead(i: nat, j: nat, rest: seq<byte>)
    requires i < 16 && j < 16
    ensures var d := [(i as byte << 4) | j as byte] + Decode(rest);
            && Decode([37, LOWER_DIGITS[i], LOWER_DIGITS[j]] + rest) == d
            && Decode([37, UPPER_DIGITS[i], UPPER_DIGITS[j]] + rest) == d
            && Decode([37, UPPER_DIGITS[i], LOWER_DIGITS[j]] + rest) == d
            && Decode([37, LOWER_DIGITS[i], UPPER_DIGITS[j]] + rest) == d
  {
    HexDigitsOf(i);
    HexDigitsOf(j);
    EscapeIsRead(LOWER_DIGITS[i], LOWER_DIGITS[j], rest);
    EscapeIsRead(UPPER_DIGITS[i], UPPER_DIGITS[j], rest);
    EscapeIsRead(UPPER_DIGITS[i], LOWER_DIGITS[j], rest);
    EscapeIsRead(LOWER_DIGITS[i], UPPER_DIGITS[j], rest);
  }

  lemma EscapeIsRead(high: byte, low: byte, rest: seq<byte>)
    ensures Decode([37, high, low] + rest) == [(FromHex(high) << 4) | FromHex(low)] + Decode(rest)
  {
    assert ([37, high, low] + rest)[3..] == rest;
  }

  /** A byte that must be escaped is written as '%' and its two digits, the high one first. */
  lemma EscapeIsWritten(i: nat, j: nat)
    requires i < 16 && j < 16
    ensures var c := (i as byte << 4) | j as byte;
            !Unreserved(c) && c != SPACE ==> EncodeByte(c) == [37, LOWER_DIGITS[i], LOWER_DIGITS[j]]
  {
    HexDigitsOf(i);
    HexDigitsOf(j);
    DigitsApart(i as byte, j as byte);
  }

  lemma DigitsApart(high: byte, low: byte)
    requires high < 16 && low < 16
    ensures ((high << 4) | low) >> 4 == high && ToHex(((high << 4) | low) & 15) == ToHex(low)
  {
  }

  /** A plus sign is read as a space, and any other character but '%' as itself, reserved ones too. */
  lemma CharacterIsRead(c: byte, rest: seq<byte>)
    requires c != 37
    ensures Decode([c] + rest) == [if c == 43 then 32 else c] + Decode(rest)
  {
    assert ([c] + rest)[1..] == rest;
  }

  /** A '%' with fewer than two characters behind it vanishes, and they are read as if it were not there. */
  lemma CutEscapeVanishes(rest: seq<byte>)
    requires |rest| < 2
    ensures Decode([37] + rest) == Decode(rest)
  {
    assert ([37] + rest)[1..] == rest;
  }

  /** The encoder leaves the unreserved characters of RFC 3986 as they are, and no others. */
  lemma UnreservedIff(c: byte)
    ensures EncodeByte(c) == [c] <==>
            || 0x30 <= c <= 0x39 || 0x41 <= c <= 0x5A || 0x61 <= c <= 0x7A
            || c in [0x2D, 0x2E, 0x5F, 0x7E]
    ensures EncodeByte(0x20) == [0x2B]
  {
  }

  /** What the encoder can write: every byte in the one form it has for it. */
  predicate Canonical(t: seq<byte>) {
    t == [] ||
    if t[0] == PERCENT then
      && |t| >= 3 && IsHexDigit(t[1]) && IsHexDigit(t[2])
      && !Unreserved(FromHexPair(t[1], t[2])) && FromHexPair(t[1], t[2]) != SPACE
      && Canonical(t[3..])
    else
      (Unreserved(t[0]) || t[0] == PLUS) && Canonical(t[1..])
  }

  lemma {:induction false} EncodeIsCanonical(s: seq<byte>)
    ensures Canonical(Encode(s))
  {
    if s != [] {
      var c, rest := s[0], Encode(s[1..]);
      EncodeIsCanonical(s[1..]);
      HexPairReadsBack(c);
      HexPairReadsBack(c >> 4);
      HexPairReadsBack(c & 15);
      assert (EncodeByte(c) + rest)[|EncodeByte(c)|..] == rest;
    }
  }

  /** The first form of a canonical string is the one the encoder gives its byte. */
  lemma EncodeFirst(t: seq<byte>)
    requires t != [] && Canonical(t)
    ensures Canonical(t[Taken(t)..])
    ensures |DecodeFirst(t)| == 1 && EncodeByte(DecodeFirst(t)[0]) == t[..Taken(t)]
  {
    if t[0] == PERCENT {
      HexPairWritesBack(t[1], t[2]);
    }
  }

  lemma {:induction false} EncodeOfDecode(t: seq<byte>)
    requires Canonical(t)
    ensures Encode(Decode(t)) == t
  {
    hide Canonical, EncodeByte, DecodeFirst;
    if t != [] {
      EncodeFirst(t);
      EncodeOfDecode(t[Taken(t)..]);
      assert Decode(t)[1..] == Decode(t[Taken(t)..]);
      assert t == t[..Taken(t)] + t[Taken(t)..];
    }
  }

  /** Decoding and encoding again restores exactly the strings in canonical form. */
  lemma RestoredIffCanonical(t: seq<byte>)
    ensures Encode(Decode(t)) == t <==> Canonical(t)
  {
    EncodeIsCanonical(Decode(t));
    if Canonical(t) {
      EncodeOfDecode(t);
    }
  }

  /** An encoded string holds nothing but unreserved characters, '%' and '+', so no zero byte either. */
  lemma {:induction false} EncodedIsSafe(s: seq<byte>, k: nat)
    requires k < |Encode(s)|
    ensures var c := Encode(s)[k]; Unreserved(c) || c == PERCENT || c == PLUS
  {
    var c := EncodeByte(s[0]);
    HexPairReadsBack(s[0] >> 4);
    HexPairReadsBack(s[0] & 15);
    if k >= |c| {
      EncodedIsSafe(s[1..], k - |c|);
    }
  }

  // The loops over buffers.

  /** The buffer holds s and a zero byte behind it. */
  ghost predicate Holds(a: array<byte>, s: seq<byte>)
    reads a
  {
    |s| < a.Length && a[..|s|] == s && a[|s|] == 0
  }

  lemma HeldBytes(a: array<byte>, s: seq<byte>, i: nat)
    requires Holds(a, s) && 0 !in s && i <= |s|
    ensures a[i] == 0 <==> i == |s|
    ensures i < |s| ==> a[i] == s[i]
  {
    assert i < |s| ==> a[..|s|][i] == s[i];
  }

  method StrLen(str: array<byte>, ghost s: seq<byte>) returns (n: nat)
    requires Holds(str, s) && 0 !in s
    ensures n == |s|
  {
    n := 0;
    HeldBytes(str, s, 0);
    while str[n] != 0
      invariant n <= |s| < str.Length && (str[n] != 0 <==> n < |s|)
      decreases |s| - n
    {
      n := n + 1;
      HeldBytes(str, s, n);
    }
  }

  lemma {:induction false} EncodeSnoc(s: seq<byte>, c: byte)
    ensures Encode(s + [c]) == Encode(s) + EncodeByte(c)
  {
    hide EncodeByte;
    if s == [] {
      assert [] + [c] == [c] && [c][1..] == [];
    } else {
      assert (s + [c])[1..] == s[1..] + [c];
      EncodeSnoc(s[1..], c);
    }
  }

  lemma Prefix(s: seq<byte>, i: nat)
    requires i < |s|
    ensures s[..i + 1] == s[..i] + [s[i]] && |Encode(s[..i + 1])| <= 3 * i + 3
  {
  }

  /** Write and step on: `*p++ = c`. */
  method Emit(buf: array<byte>, at: nat, c: byte) returns (next: nat)
    requires at < buf.Length
    modifies buf
    ensures next == at + 1 && buf[..next] == old(buf[..at]) + [c]
  {
    buf[at], next := c, at + 1;
  }

  method EmitEncoded(buf: array<byte>, at: nat, c: byte) returns (next: nat)
    requires at + 3 <= buf.Length
    modifies buf
    ensures next == at + |EncodeByte(c)| && buf[..next] == old(buf[..at]) + EncodeByte(c)
  {
    if Unreserved(c) {
      next := Emit(buf, at, c);
    } else if c == SPACE {
      next := Emit(buf, at, PLUS);
    } else {
      next := Emit(buf, at, PERCENT);
      next := Emit(buf, next, ToHex(c >> 4));
      next := Emit(buf, next, ToHex(c & 15));
    }
  }

  method UrlEncode(str: array<byte>, ghost s: seq<byte>) returns (buf: array<byte>)
    requires Holds(str, s) && 0 !in s
    ensures fresh(buf) && Holds(buf, Encode(s)) && 0 !in Encode(s)
  {
    hide Encode, EncodeByte;
    var length := StrLen(str, s);
    buf := new byte[length * 3 + 1];
    var i, out := 0, 0;
    HeldBytes(str, s, 0);
    EncodeNothing();
    while str[i] != 0
      invariant i <= |s| && out == |Encode(s[..i])| <= 3 * i && buf[..out] == Encode(s[..i])
      invariant str[i] != 0 <==> i < |s|
      decreases |s| - i
    {
      HeldBytes(str, s, i);
      HeldBytes(str, s, i + 1);
      Prefix(s, i);
      EncodeSnoc(s[..i], s[i]);
      out := EmitEncoded(buf, out, str[i]);
      i := i + 1;
    }
    assert s[..|s|] == s;
    buf[out] := 0;
    EncodedHasNoZero(s);
  }

  lemma EncodeNothing()
    ensures Encode([]) == []
  {
  }

  lemma EncodedHasNoZero(s: seq<byte>)
    ensures 0 !in Encode(s)
  {
    forall k | 0 <= k < |Encode(s)| ensures Encode(s)[k] != 0 {
      EncodedIsSafe(s, k);
    }
  }

  /** One turn of the decoding loop. */
  method EmitDecoded(str: array<byte>, ghost s: seq<byte>, i: nat, buf: array<byte>, at: nat)
    returns (next: nat, out: nat)
    requires Holds(str, s) && 0 !in s && i < |s| && at < buf.Length && str != buf
    modifies buf
    ensures next == i + Taken(s[i..]) && out == at + |DecodeFirst(s[i..])|
    ensures buf[..out] == old(buf[..at]) + DecodeFirst(s[i..])
  {
    hide FromHexPair;
    HeldBytes(str, s, i);
    HeldBytes(str, s, i + 1);
    if i + 1 < |s| {
      HeldBytes(str, s, i + 2);
    }
    next, out := i, at;
    if str[i] == PERCENT {
      if str[i + 1] != 0 && str[i + 2] != 0 {
        out := Emit(buf, at, FromHexPair(str[i + 1], str[i + 2]));
        next := i + 2;
      }
    } else if str[i] == PLUS {
      out := Emit(buf, at, SPACE);
    } else {
      out := Emit(buf, at, str[i]);
    }
    next := next + 1;
  }

  method UrlDecode(str: array<byte>, ghost s: seq<byte>) returns (buf: array<byte>)
    requires Holds(str, s) && 0 !in s
    ensures fresh(buf) && Holds(buf, Decode(s))
  {
    hide Decode, DecodeFirst;
    var length := StrLen(str, s);
    buf := new byte[length + 1];
    var i, out := 0, 0;
    HeldBytes(str, s, 0);
    assert s[0..] == s;
    while str[i] != 0
      invariant out <= i <= |s| && buf[..out] + Decode(s[i..]) == Decode(s)
      invariant str[i] != 0 <==> i < |s|
      decreases |s| - i
    {
      DecodeStep(s, i);
      ghost var done := buf[..out];
      i, out := EmitDecoded(str, s, i, buf, out);
      HeldBytes(str, s, i);
      assert buf[..out] + Decode(s[i..]) == done + (buf[..out][|done|..] + Decode(s[i..]));
    }
    DecodeNothing();
    assert s[|s|..] == [];
    buf[out] := 0;
  }

  lemma DecodeStep(s: seq<byte>, i: nat)
    requires i < |s|
    ensures var rest := s[i..]; Decode(rest) == DecodeFirst(rest) + Decode(s[i + Taken(rest)..])
  {
    assert s[i..][Taken(s[i..])..] == s[i + Taken(s[i..])..];
  }

  lemma DecodeNothing()
    ensures Decode([]) == []
  {
  }
}
