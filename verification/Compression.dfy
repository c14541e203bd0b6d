/** Compressing a payload in place, over any codec that can undo itself. */
module Compression {
  import opened Bytes
  import opened Crc
  import opened Options
  import opened Packets

  /** compress2 and uncompress: the second gets the room for its output, and neither may exceed its room. */
  datatype Codec = Codec(pack: (seq<byte>, int) -> Option<seq<byte>>, unpack: (seq<byte>, nat) -> Option<seq<byte>>) {

    ghost predicate Lossless() {
      forall s, level :: pack(s, level).Some? ==> unpack(pack(s, level).value, |s|) == Some(s)
    }

    function Packed(s: seq<byte>, level: int): (r: Option<seq<byte>>)
      ensures r.Some? ==> |r.value| <= |s|
    {
      var r := pack(s, level);
      if r.Some? && |r.value| <= |s| then r else None
    }

    /** There is no room at all if that much memory cannot be had. */
    function Unpacked(s: seq<byte>, room: nat, limit: HeapLimit): (r: Option<seq<byte>>)
      ensures r.Some? ==> |r.value| <= room <= limit
    {
      var r := unpack(s, room);
      if r.Some? && |r.value| <= room <= limit then r else None
    }
  }

  /** The packet with another payload, its uncompressed length noted, and sealed. */
  function Repacked(p: Packet, payload: seq<byte>, uncompressed: nat, limit: HeapLimit): (bool, Packet) {
    var q := p.Clear();
    if !q.CanHold(|payload|, limit) then (false, q)
    else
      var header := WithField(p.header, UNCOMPRESSED_LENGTH_POS, 4, uncompressed);
      (true, q.Append(payload).(header := header, frozen := false).Freeze())
  }

  function Compress(p: Packet, level: int, codec: Codec, limit: HeapLimit): (bool, Packet) {
    if level <= 0 || level > 9 || p.frozen then (false, p)
    else if p.payload == [] then (true, p)
    else
      match codec.Packed(p.payload, level)
      case None => (false, p)
      case Some(z) => Repacked(p, z, |p.payload|, limit)
  }

  function Uncompress(p: Packet, codec: Codec, limit: HeapLimit): (bool, Packet) {
    match codec.Unpacked(p.payload, Field(p.header, UNCOMPRESSED_LENGTH_POS, 4), limit)
    case None => (false, p)
    case Some(s) => Repacked(p, s, 0, limit)
  }

  /** A compression that fails leaves the packet as it was, unless the codec returned nothing at all. */
  lemma FailedCompressIff(p: Packet, level: int, codec: Codec, limit: HeapLimit)
    requires p.Valid(limit) && !Compress(p, level, codec, limit).0
    ensures Compress(p, level, codec, limit).1 != p
       <==> 0 < level <= 9 && !p.frozen && p.payload != [] && codec.Packed(p.payload, level) == Some([])
  {
  }

  /**
   A failed uncompression leaves the packet as it was, unless the codec succeeded and no room could be made for
   its result: because there was no memory, or because the result is empty, for which there is never room.
   */
  lemma FailedUncompressIff(p: Packet, codec: Codec, limit: HeapLimit)
    requires p.Valid(limit) && !Uncompress(p, codec, limit).0
    ensures var r := codec.Unpacked(p.payload, Field(p.header, UNCOMPRESSED_LENGTH_POS, 4), limit);
            && (Uncompress(p, codec, limit).1 != p
                <==> r.Some? && !p.Clear().CanHold(|r.value|, limit) && p != p.Clear())
            && (r.Some? ==> Uncompress(p, codec, limit).1 == p.Clear())
  {
  }

  /** A repacked packet carries the new payload and the noted length, is sealed, and is otherwise as it was. */
  lemma RepackedFields(p: Packet, payload: seq<byte>, uncompressed: nat, limit: HeapLimit)
    requires p.Clear().CanHold(|payload|, limit) && uncompressed < MAX_LENGTH
    ensures var (ok, q) := Repacked(p, payload, uncompressed, limit);
            && ok && q.payload == payload && q.cursor == 32 && q.frozen && q.checked == p.checked
            && q.header[..16] == p.header[..16] && Field(q.header, 24, 4) == uncompressed
            && Field(q.header, 20, 4) == |payload|
            && q.header[16..20] == (if p.checked then WordBytes(Crc32(payload)) else [0, 0, 0, 0])
            && q.header[28..32] == WordBytes(Crc32(q.header[..28]))
  {
    hide BigEndian, Value, Sealed, Crc32, WordBytes;
    var header := WithField(p.header, UNCOMPRESSED_LENGTH_POS, 4, uncompressed);
    var q := Packet(header, payload, 32, p.Clear().CapacityFor(|payload|), false, p.checked);
    NoteLength(p.header, uncompressed);
    FrozenFields(q);
    assert [] + payload == payload && Repacked(p, payload, uncompressed, limit).1 == q.Freeze();
    var image := q.Freeze().Image();
    ImageParts(q.Freeze().header, payload);
    assert image[..16] == image[..32][..16] && image[24..28] == image[..32][24..28] && image[..28] == image[..32][..28];
  }

  /**
   A compression succeeds with a level from 1 to 9 on a packet that is not frozen, if there is no payload, or if the
   codec makes something of it that is no longer. Then that is the payload.
   */
  lemma CompressIff(p: Packet, level: int, codec: Codec, limit: HeapLimit)
    requires p.Valid(limit)
    ensures var (ok, q), z := Compress(p, level, codec, limit), codec.pack(p.payload, level);
            && (ok <==> 1 <= level <= 9 && !p.frozen &&
                        (p.payload == [] || (z.Some? && 0 < |z.value| <= |p.payload|)))
            && (ok && p.payload == [] ==> q == p)
            && (ok && p.payload != [] ==>
                  q.payload == z.value && q.frozen && q.cursor == 32 && q.header[..16] == p.header[..16]
                  && Field(q.header, 24, 4) == |p.payload| && Field(q.header, 20, 4) == |z.value|)
  {
    hide Repacked;
    var z := codec.Packed(p.payload, level);
    if 1 <= level <= 9 && !p.frozen && p.payload != [] && z.Some? {
      if z.value != [] {
        RepackedFields(p, z.value, |p.payload|, limit);
      } else {
        NothingIsNotRepacked(p, |p.payload|, limit);
      }
    }
  }

  lemma NothingIsNotRepacked(p: Packet, uncompressed: nat, limit: HeapLimit)
    ensures Repacked(p, [], uncompressed, limit) == (false, p.Clear())
  {
  }

  /**
   An uncompression succeeds if the codec does, within the noted length, and there is room for its result, which must
   not be empty. Then that is the payload, and no length is noted any more.
   */
  lemma UncompressIff(p: Packet, codec: Codec, limit: HeapLimit)
    requires p.Valid(limit)
    ensures var (ok, q), n := Uncompress(p, codec, limit), Field(p.header, 24, 4);
            var s := codec.unpack(p.payload, n);
            && (ok <==> s.Some? && |s.value| <= n <= limit && p.Clear().CanHold(|s.value|, limit))
            && (ok ==> q.payload == s.value && q.frozen && q.cursor == 32 && q.header[..16] == p.header[..16]
                       && Field(q.header, 24, 4) == 0 && Field(q.header, 20, 4) == |s.value|)
  {
    hide Packet.CanHold;
    var s := codec.Unpacked(p.payload, Field(p.header, 24, 4), limit);
    if s.Some? && p.Clear().CanHold(|s.value|, limit) {
      RepackedFields(p, s.value, 0, limit);
      hide Repacked;
    }
  }

  /** A codec that puts a mark in front of its data, so that nothing is packed as a mark alone. */
  const MARKING: Codec := Codec((s, level) => Some([1] + s), (z, room) => if z == [] then None else Some(z[1..]))

  lemma MarkingIsLossless()
    ensures MARKING.Lossless()
  {
    forall s: seq<byte>, level | MARKING.pack(s, level).Some?
      ensures MARKING.unpack(MARKING.pack(s, level).value, |s|) == Some(s)
    {
      assert ([1] + s)[1..] == s;
    }
  }

  /** A peer that sends the packed form of nothing: uncompress fails, and the payload is gone. */
  lemma UncompressLosesPayload(p: Packet, limit: HeapLimit)
    requires p.payload == [1] && Field(p.header, UNCOMPRESSED_LENGTH_POS, 4) == 0
    ensures MARKING.Lossless() && MARKING.pack([], 1) == Some(p.payload)
    ensures Uncompress(p, MARKING, limit) == (false, p.Clear()) && p.Clear() != p
  {
    MarkingIsLossless();
    var nothing: seq<byte> := [];
    assert p.payload[1..] == nothing && [1] + nothing == p.payload;
  }

  /** Sealing forgets what the sealed fields held before. */
  lemma SealedIgnoresSums(g: Header, h: Header, payload: seq<byte>, checked: bool)
    requires g[..16] == h[..16] && g[24..28] == h[24..28]
    ensures Sealed(g, payload, checked) == Sealed(h, payload, checked)
  {
    hide BigEndian, PayloadSum, HeaderSum;
    var a, b := Sealed(g, payload, checked), Sealed(h, payload, checked);
    SealedFields(g, payload, checked);
    SealedFields(h, payload, checked);
    assert a[..28] == a[..16] + a[16..20] + a[20..24] + a[24..28];
    assert b[..28] == b[..16] + b[16..20] + b[20..24] + b[24..28];
    SameSum(a, b);
    HeaderParts(a, b);
  }

  lemma NoteLength(h: Header, n: nat)
    requires n < MAX_LENGTH
    ensures var g := WithField(h, UNCOMPRESSED_LENGTH_POS, 4, n);
            && g[..16] == h[..16] && g[24..28] == BigEndian(n, 4)
            && Field(g, UNCOMPRESSED_LENGTH_POS, 4) == n
  {
    var field := BigEndian(n, 4);
    PatchOutside(h, 24, field, 0, 16);
    assert Pow256(4) == 0x1_0000_0000;
    ValueOfBigEndian(n, 4);
  }

  /** Whatever a codec makes of nothing, there is no room for it, so an empty payload is never uncompressed. */
  lemma NothingIsNotUncompressed(p: Packet, codec: Codec, limit: HeapLimit)
    requires p.payload == [] && Field(p.header, UNCOMPRESSED_LENGTH_POS, 4) == 0
    ensures !Uncompress(p, codec, limit).0
  {
  }

  lemma PackedPayloadReturns(p: Packet, level: int, codec: Codec, limit: HeapLimit)
    requires p.Valid(limit) && codec.Lossless()
    requires p.payload != [] && Field(p.header, UNCOMPRESSED_LENGTH_POS, 4) == 0
    requires Compress(p, level, codec, limit).0
    ensures var (ok, q) := Uncompress(Compress(p, level, codec, limit).1, codec, limit);
            ok && q.Image() == p.Freeze().Image() && q.frozen && q.cursor == HEADER_LENGTH
  {
    hide BigEndian, Value, Sealed;
    var z, n := codec.Packed(p.payload, level).value, |p.payload|;
    var g := WithField(p.header, UNCOMPRESSED_LENGTH_POS, 4, n);
    var c := Compress(p, level, codec, limit).1;
    assert [] + z == z && [] + p.payload == p.payload;
    NoteLength(p.header, n);
    SealedFields(g, z, p.checked);
    assert c.header == Sealed(g, z, p.checked) && c.payload == z;
    assert Field(c.header, UNCOMPRESSED_LENGTH_POS, 4) == n;
    assert codec.Unpacked(z, n, limit) == Some(p.payload);
    var back := WithField(c.header, UNCOMPRESSED_LENGTH_POS, 4, 0);
    NoteLength(c.header, 0);
    BigEndianOfValue(p.header[24..28]);
    assert c.header[..16] == p.header[..16];
    SealedIgnoresSums(back, p.header, p.payload, p.checked);
  }

  /**
   Compressed and uncompressed again, a packet goes out as if neither had happened, exactly if it has a payload:
   an empty one is compressed with success and then not uncompressed.
   */
  lemma CompressionIsTransparent(p: Packet, level: int, codec: Codec, limit: HeapLimit)
    requires p.Valid(limit) && codec.Lossless() && Field(p.header, UNCOMPRESSED_LENGTH_POS, 4) == 0
    requires Compress(p, level, codec, limit).0
    ensures var (ok, q) := Uncompress(Compress(p, level, codec, limit).1, codec, limit);
            && (ok && q.Image() == p.Freeze().Image() <==> p.payload != [])
            && (ok <==> p.payload != [])
            && (ok ==> q.frozen && q.cursor == HEADER_LENGTH)
  {
    if p.payload != [] {
      PackedPayloadReturns(p, level, codec, limit);
    } else {
      NothingIsNotUncompressed(p, codec, limit);
    }
  }
}
