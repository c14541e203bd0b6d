/** The typed values that are put into a payload and read back at the cursor. */
module TypedFields {
  import opened Bytes
  import opened Packets

  datatype Kind = U8 | U16 | S16 | U32 | S32 | U64 | S64 {

    function Width(): nat {
      match this
      case U8 => 1
      case U16 | S16 => 2
      case U32 | S32 => 4
      case U64 | S64 => 8
    }

    predicate IsSigned() {
      S16? || S32? || S64?
    }

    predicate InRange(v: int) {
      if IsSigned() then -(Pow256(Width()) as int) <= 2 * v < Pow256(Width())
      else 0 <= v < Pow256(Width())
    }

    function Encode(v: int): (b: seq<byte>)
      requires InRange(v)
      ensures |b| == Width()
    {
      BigEndian(if v < 0 then v + Pow256(Width()) else v, Width())
    }

    function Decode(b: seq<byte>): (v: int)
      requires |b| == Width()
      ensures InRange(v)
    {
      var n := Value(b);
      if IsSigned() && 2 * n >= Pow256(Width()) then n - Pow256(Width()) else n
    }
  }

  /** How many bytes each kind takes, and which numbers it has. */
  lemma KindRanges(kind: Kind, v: int)
    ensures kind.Width() == (if kind.U8? then 1 else if kind.U16? || kind.S16? then 2
                             else if kind.U32? || kind.S32? then 4 else 8)
    ensures kind.InRange(v) <==>
            match kind
            case U8 => 0 <= v < 0x100
            case U16 => 0 <= v < 0x1_0000
            case U32 => 0 <= v < 0x1_0000_0000
            case U64 => 0 <= v < 0x1_0000_0000_0000_0000
            case S16 => -0x8000 <= v < 0x8000
            case S32 => -0x8000_0000 <= v < 0x8000_0000
            case S64 => -0x8000_0000_0000_0000 <= v < 0x8000_0000_0000_0000
  {
    assert Pow256(1) == 0x100 && Pow256(2) == 0x1_0000 && Pow256(4) == 0x1_0000_0000;
    assert Pow256(8) == 0x1_0000_0000_0000_0000;
  }

  /** A number is put as it is, or as its two's complement if it is negative, most significant byte first. */
  lemma EncodeIsTwosComplement(kind: Kind, v: int)
    requires kind.InRange(v)
    ensures Value(kind.Encode(v)) == if v >= 0 then v else v + Pow256(kind.Width())
  {
    ValueOfBigEndian(if v < 0 then v + Pow256(kind.Width()) else v, kind.Width());
  }

  /** Whatever bytes are got make the number that is put as these bytes. */
  lemma EncodeDecode(kind: Kind, b: seq<byte>)
    requires |b| == kind.Width()
    ensures kind.Encode(kind.Decode(b)) == b
  {
    BigEndianOfValue(b);
  }

  /** Every number of a kind survives the wire. */
  lemma DecodeEncode(kind: Kind, v: int)
    requires kind.InRange(v)
    ensures kind.Decode(kind.Encode(v)) == v
  {
    ValueOfBigEndian(if v < 0 then v + Pow256(kind.Width()) else v, kind.Width());
  }

  // Gets.

  function GetNumber(p: Packet, kind: Kind): (r: (int, Packet))
    requires HEADER_LENGTH <= p.cursor
  {
    if p.CanGet(kind.Width()) then (kind.Decode(p.Unread()[..kind.Width()]), p.Skip(kind.Width())) else (0, p)
  }

  /** strnlen: the bytes before the first NUL, or all of them. */
  function Length(s: seq<byte>): (n: nat)
    ensures n <= |s| && 0 !in s[..n]
    ensures n < |s| ==> s[n] == 0
  {
    if s == [] || s[0] == 0 then 0 else 1 + Length(s[1..])
  }

  function GetString(p: Packet): (r: (seq<byte>, Packet))
    requires HEADER_LENGTH <= p.cursor
  {
    if p.Eop() then ([], p)
    else
      var n := Length(p.Unread());
      (if n == |p.Unread()| then [] else p.Unread()[..n], p.Skip(n + 1))
  }

  function GetBlob(p: Packet, length: nat): (r: (bool, seq<byte>, Packet))
    requires HEADER_LENGTH <= p.cursor
  {
    if p.CanGet(length) then (true, p.Unread()[..length], p.Skip(length)) else (false, [], p)
  }

  // What a get yields, told by the bytes before and behind it.

  lemma SkippedBytes(p: Packet, n: nat)
    requires HEADER_LENGTH <= p.cursor && p.CanGet(n)
    ensures |p.Unread()| >= n && p.Unread() == p.Unread()[..n] + p.Skip(n).Unread()
  {
  }

  /** A number is got if its bytes are there, and they are the ones that it is put as; else it is 0. */
  lemma GetNumberTakes(p: Packet, kind: Kind)
    requires HEADER_LENGTH <= p.cursor <= p.Usage() + 1
    ensures var (v, q) := GetNumber(p, kind);
            if |p.Unread()| >= kind.Width()
            then kind.InRange(v) && p.Unread() == kind.Encode(v) + q.Unread() && q == p.(cursor := q.cursor)
            else v == 0 && q == p
  {
    hide Kind.Encode, Kind.Decode, Kind.InRange;
    if p.CanGet(kind.Width()) {
      SkippedBytes(p, kind.Width());
      EncodeDecode(kind, p.Unread()[..kind.Width()]);
    }
  }

  /** A string is got with the zero byte that ends it; without one it is empty, and the cursor ends up past the end. */
  lemma GetStringTakes(p: Packet)
    requires HEADER_LENGTH <= p.cursor <= p.Usage() + 1
    ensures var (s, q) := GetString(p);
            && q == p.(cursor := q.cursor) && 0 !in s
            && (p.Unread() == [] ==> s == [] && q == p)
            && (0 in p.Unread() ==> p.Unread() == s + [0] + q.Unread())
            && (p.Unread() != [] && 0 !in p.Unread() ==> s == [] && q.cursor == q.Usage() + 1)
  {
    hide Length, Packet.Unread;
    EopIff(p);
    NulFound(p.Unread());
    var n := Length(p.Unread());
    if n < |p.Unread()| {
      UnreadLength(p);
      UpToNul(p.Unread(), n);
      SkippedBytes(p, n + 1);
    } else if !p.Eop() {
      UnreadLength(p);
    }
  }

  lemma {:induction false} NulFound(s: seq<byte>)
    ensures Length(s) < |s| <==> 0 in s
    decreases |s|
  {
    if s != [] && s[0] != 0 {
      NulFound(s[1..]);
      assert s == [s[0]] + s[1..];
    }
  }

  lemma UpToNul(s: seq<byte>, n: nat)
    requires n < |s| && s[n] == 0
    ensures s[..n + 1] == s[..n] + [0]
  {
  }

  lemma UnreadLength(p: Packet)
    requires HEADER_LENGTH <= p.cursor <= p.Usage()
    ensures |p.Unread()| == p.Usage() - p.cursor
  {
  }

  /** A blob is got, and reported, exactly if that many bytes are there; else nothing is copied and nothing moves. */
  lemma GetBlobTakes(p: Packet, length: nat)
    requires HEADER_LENGTH <= p.cursor <= p.Usage() + 1
    ensures var (ok, b, q) := GetBlob(p, length);
            && (ok <==> p.cursor + length <= p.Usage())
            && (ok ==> |b| == length && p.Unread() == b + q.Unread() && q == p.(cursor := q.cursor))
            && (!ok ==> b == [] && q == p)
  {
    if p.CanGet(length) {
      SkippedBytes(p, length);
    }
  }

  // Lists of values.

  datatype Item = Number(kind: Kind, value: int) | Text(chars: seq<byte>) | Blob(bytes: seq<byte>) {

    /** What the put methods take: numbers in range, C strings, and blobs that are not empty. */
    predicate Valid() {
      match this
      case Number(kind, v) => kind.InRange(v)
      case Text(s) => 0 !in s && |s| + 1 < MAX_LENGTH
      case Blob(b) => 0 < |b| < MAX_LENGTH
    }

    function Encoded(): (b: Chunk)
      requires Valid()
      ensures b != []
    {
      match this
      case Number(kind, v) => kind.Encode(v)
      case Text(s) => s + [0]
      case Blob(b) => b
    }
  }

  datatype Shape = NumberShape(kind: Kind) | TextShape | BlobShape(length: nat)

  function ShapeOf(item: Item): Shape {
    match item
    case Number(kind, _) => NumberShape(kind)
    case Text(_) => TextShape
    case Blob(b) => BlobShape(|b|)
  }

  function GetItem(p: Packet, shape: Shape): (r: (Item, Packet))
    requires HEADER_LENGTH <= p.cursor
    ensures HEADER_LENGTH <= r.1.cursor
  {
    match shape
    case NumberShape(kind) => var (v, q) := GetNumber(p, kind); (Number(kind, v), q)
    case TextShape => var (s, q) := GetString(p); (Text(s), q)
    case BlobShape(length) => var (_, b, q) := GetBlob(p, length); (Blob(b), q)
  }

  function GetItems(p: Packet, shapes: seq<Shape>): (r: (seq<Item>, Packet))
    requires HEADER_LENGTH <= p.cursor
    decreases |shapes|
  {
    if shapes == [] then ([], p)
    else
      var (item, q) := GetItem(p, shapes[0]);
      var (items, r) := GetItems(q, shapes[1..]);
      ([item] + items, r)
  }

  /** Puts in order, up to the first that finds no memory. */
  function PutItems(p: Packet, items: seq<Item>, limit: HeapLimit): (r: (bool, Packet))
    requires forall i | 0 <= i < |items| :: items[i].Valid()
    decreases |items|
  {
    if items == [] then (true, p)
    else
      var (ok, q) := p.Put(items[0].Encoded(), limit);
      if ok then PutItems(q, items[1..], limit) else (false, q)
  }

  function Shapes(items: seq<Item>): (shapes: seq<Shape>)
    ensures |shapes| == |items|
  {
    seq(|items|, i requires 0 <= i < |items| => ShapeOf(items[i]))
  }

  function EncodedAll(items: seq<Item>): seq<byte>
    requires forall i | 0 <= i < |items| :: items[i].Valid()
  {
    if items == [] then [] else items[0].Encoded() + EncodedAll(items[1..])
  }

  /** Puts only append, across any number of reallocations. */
  lemma {:induction false} PutItemsAppends(p: Packet, items: seq<Item>, limit: HeapLimit)
    requires forall i | 0 <= i < |items| :: items[i].Valid()
    requires PutItems(p, items, limit).0
    ensures var q := PutItems(p, items, limit).1;
            && q.payload == p.payload + EncodedAll(items)
            && q.header == p.header && q.cursor == p.cursor && q.frozen == p.frozen && q.checked == p.checked
    decreases |items|
  {
    if items == [] {
      assert p.payload + [] == p.payload;
    } else {
      var bytes := items[0].Encoded();
      PutItemsAppends(p.Append(bytes), items[1..], limit);
      assert (p.payload + bytes) + EncodedAll(items[1..]) == p.payload + (bytes + EncodedAll(items[1..]));
    }
  }

  lemma LengthOfText(s: seq<byte>, rest: seq<byte>)
    requires 0 !in s
    ensures Length(s + [0] + rest) == |s|
    decreases |s|
  {
    var t := s + [0] + rest;
    if s != [] {
      assert t[1..] == s[1..] + [0] + rest;
      LengthOfText(s[1..], rest);
    }
  }

  lemma TextReadsBack(p: Packet, s: seq<byte>, rest: seq<byte>)
    requires 0 !in s && HEADER_LENGTH <= p.cursor <= p.Usage() && p.Unread() == s + [0] + rest
    ensures GetString(p) == (s, p.Skip(|s| + 1))
  {
    hide Length;
    LengthOfText(s, rest);
    assert p.Unread()[..|s|] == s;
  }

  lemma SkipLeaves(p: Packet, bytes: seq<byte>, rest: seq<byte>)
    requires HEADER_LENGTH <= p.cursor <= p.Usage() && p.Unread() == bytes + rest
    ensures p.CanGet(|bytes|) && p.Unread()[..|bytes|] == bytes
    ensures p.Skip(|bytes|).cursor <= p.Usage() && p.Skip(|bytes|).Unread() == rest
  {
    assert p.Skip(|bytes|).Unread() == p.Unread()[|bytes|..];
  }

  /** One value comes back as it was put, wherever the cursor stands and whatever follows. */
  lemma GetItemReadsBack(p: Packet, item: Item, rest: seq<byte>)
    requires item.Valid() && HEADER_LENGTH <= p.cursor <= p.Usage() && p.Unread() == item.Encoded() + rest
    ensures GetItem(p, ShapeOf(item)) == (item, p.Skip(|item.Encoded()|))
    ensures p.Skip(|item.Encoded()|).cursor <= p.Usage() && p.Skip(|item.Encoded()|).Unread() == rest
  {
    hide Packet.Unread, Length;
    SkipLeaves(p, item.Encoded(), rest);
    match item {
      case Number(kind, v) => DecodeEncode(kind, v);
      case Text(s) => TextReadsBack(p, s, rest);
      case Blob(b) =>
    }
  }

  lemma {:induction false} GetItemsReadsBack(p: Packet, items: seq<Item>, rest: seq<byte>)
    requires forall i | 0 <= i < |items| :: items[i].Valid()
    requires HEADER_LENGTH <= p.cursor <= p.Usage() && p.Unread() == EncodedAll(items) + rest
    ensures var (got, q) := GetItems(p, Shapes(items));
            got == items && q == p.Skip(|EncodedAll(items)|)
    decreases |items|
  {
    hide GetItem, Packet.Unread, ShapeOf, Item.Encoded, Item.Valid;
    if items == [] {
      assert p.Skip(0) == p;
    } else {
      var bytes, later := items[0].Encoded(), EncodedAll(items[1..]);
      assert (bytes + later) + rest == bytes + (later + rest);
      GetItemReadsBack(p, items[0], later + rest);
      GetItemsReadsBack(p.Skip(|bytes|), items[1..], rest);
      assert Shapes(items)[1..] == Shapes(items[1..]);
      assert items == [items[0]] + items[1..];
    }
  }

  /** Whatever is put into an empty packet and rewound is got back in order, and nothing is left. */
  lemma PutRewindGet(p: Packet, items: seq<Item>, limit: HeapLimit)
    requires p.payload == []
    requires forall i | 0 <= i < |items| :: items[i].Valid()
    requires PutItems(p, items, limit).0
    ensures var (got, r) := GetItems(PutItems(p, items, limit).1.Rewind(), Shapes(items));
            got == items && r.Eop() && r.cursor == r.Usage()
  {
    PutItemsAppends(p, items, limit);
    var q := PutItems(p, items, limit).1.Rewind();
    assert q.Unread() == EncodedAll(items) + [];
    GetItemsReadsBack(q, items, []);
  }
}
