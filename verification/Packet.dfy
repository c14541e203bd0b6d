/** What a packet is: a 32-byte header, a payload, a read cursor and the state of its buffer. */
module Packets {
  import opened Bytes
  import opened Crc

  // Header layout.

  const HEADER_LENGTH: nat := 32
  const CHECKSUM_POS: nat := 28
  const UNCOMPRESSED_LENGTH_POS: nat := 24
  const PAYLOAD_LENGTH_POS: nat := 20
  const PAYLOAD_CHECKSUM_POS: nat := 16
  const TYPE_POS: nat := 10
  const MSG_ID_POS: nat := 8
  const UID_POS: nat := 4
  const SYNC_POS: nat := 0

  const SYNC: seq<byte> := [0x00, 0xAA, 0xAA, 0xAA]
  const NO_SUM: seq<byte> := [0, 0, 0, 0]

  const INITIAL_PACKET_SIZE: nat := 128
  const INCREMENT_PACKET_SIZE: nat := 512

  /** The largest buffer the allocator will grant. */
  type HeapLimit = n: nat | INITIAL_PACKET_SIZE <= n < MAX_LENGTH witness INITIAL_PACKET_SIZE

  type Header = h: seq<byte> | |h| == HEADER_LENGTH witness seq(HEADER_LENGTH, _ => 0)

  function Field(h: seq<byte>, pos: nat, width: nat): (n: nat)
    requires pos + width <= |h|
    ensures n < Pow256(width)
  {
    Value(h[pos..pos + width])
  }

  function WithField(h: Header, pos: nat, width: nat, value: nat): (r: Header)
    requires pos + width <= HEADER_LENGTH
  {
    Patch(h, pos, BigEndian(value, width))
  }

  datatype Packet = Packet(
    header: Header, payload: seq<byte>, cursor: nat, capacity: nat, frozen: bool, checked: bool)
  {

    function Usage(): nat {
      HEADER_LENGTH + |payload|
    }

    /** The bytes that go onto the wire. */
    function Image(): seq<byte> {
      header + payload
    }

    /** One past the end of the data is where reading an unterminated string leaves the cursor. */
    predicate Valid(limit: HeapLimit) {
      HEADER_LENGTH <= cursor <= Usage() + 1 && Usage() <= capacity <= limit
    }

    /** Whether n more bytes can be put, growing the buffer if they do not fit. */
    predicate CanHold(n: nat, limit: HeapLimit) {
      0 < n < MAX_LENGTH && (Usage() + n <= capacity || Usage() + Growth(n) <= limit)
    }

    /** The 32-bit sum of the write end and n wraps around, so that any n bytes seem to fit. */
    predicate Wraps(n: nat) {
      Usage() + n >= WORD
    }

    /** Whether a payload of n bytes has room in the emptied packet. */
    predicate HasRoom(n: nat, limit: HeapLimit) {
      n == 0 || Clear().CanHold(n, limit)
    }

    function CapacityFor(n: nat): nat {
      if Usage() + n <= capacity then capacity else Usage() + Growth(n)
    }

    function Append(bytes: seq<byte>): Packet {
      this.(payload := payload + bytes, capacity := CapacityFor(|bytes|))
    }

    /** Every put: append the bytes, or leave the packet alone. */
    function Put(bytes: Chunk, limit: HeapLimit): (bool, Packet) {
      if CanHold(|bytes|, limit) then (true, Append(bytes)) else (false, this)
    }

    /** The 32-bit sum of the cursor and n wraps around, so that any n bytes seem to be there. */
    predicate Overruns(n: nat) {
      cursor + n >= WORD
    }

    predicate CanGet(n: nat) {
      cursor + n <= Usage()
    }

    /** The bytes from the cursor on. */
    function Unread(): seq<byte>
      requires HEADER_LENGTH <= cursor
    {
      if cursor <= Usage() then payload[cursor - HEADER_LENGTH..] else []
    }

    function Skip(n: nat): Packet {
      this.(cursor := cursor + n)
    }

    function Clear(): Packet {
      this.(payload := [], cursor := HEADER_LENGTH)
    }

    function Rewind(): Packet {
      this.(cursor := HEADER_LENGTH)
    }

    predicate Eop() {
      cursor >= Usage()
    }

    /** createUid: another serial number, and the packet emptied and thawed. */
    function WithUid(uid: Word): Packet {
      Clear().(header := WithField(header, UID_POS, 4, uid), frozen := false)
    }

    function Freeze(): Packet {
      if frozen then this else this.(header := Sealed(header, payload, checked), frozen := true)
    }

    /** copy: the other packet's header and payload, in this packet's buffer. */
    function CopyOf(other: Packet): Packet {
      this.(header := other.header,
            payload := other.payload,
            cursor := HEADER_LENGTH,
            capacity := if other.payload == [] then capacity else Clear().CapacityFor(|other.payload|))
    }
  }

  /** A packet as it is constructed. */
  function New(msgid: nat, messageType: nat, uid: Word): Packet {
    var h0: Header := seq(HEADER_LENGTH, _ => 0);
    var h1: Header := Patch(h0, SYNC_POS, SYNC);
    var h2: Header := WithField(h1, UID_POS, 4, uid);
    var h3: Header := WithField(h2, MSG_ID_POS, 2, msgid);
    var h4: Header := WithField(h3, TYPE_POS, 2, messageType);
    Packet(h4, [], HEADER_LENGTH, INITIAL_PACKET_SIZE, false, true)
  }

  /** The packet with this image, in a buffer of its size, with the cursor behind the header. */
  function OfImage(image: seq<byte>): (p: Packet)
    requires |image| >= HEADER_LENGTH
    ensures p.Image() == image
  {
    Packet(image[..HEADER_LENGTH], image[HEADER_LENGTH..], HEADER_LENGTH, |image|, false, false)
  }

  function Growth(n: nat): nat {
    if n < INCREMENT_PACKET_SIZE then INCREMENT_PACKET_SIZE else n
  }

  // What the operations on headers do, byte by byte.

  /** A patched field holds its number, and whatever lies beside it is as before. */
  lemma PatchedField(h: Header, pos: nat, width: nat, n: nat)
    requires pos + width <= HEADER_LENGTH && n < Pow256(width)
    ensures var g := WithField(h, pos, width, n);
            && Field(g, pos, width) == n
            && g[..pos] == h[..pos] && g[pos + width..] == h[pos + width..]
  {
    ValueOfBigEndian(n, width);
  }

  /** The sync word, serial number, id and type stand where a receiver looks for them, and zeros behind them. */
  lemma NewFields(msgid: nat, messageType: nat, uid: Word)
    requires msgid < 0x1_0000 && messageType < 0x1_0000
    ensures var h := New(msgid, messageType, uid).header;
            && h[..4] == [0x00, 0xAA, 0xAA, 0xAA]
            && Field(h, 4, 4) == uid && Field(h, 8, 2) == msgid && Field(h, 10, 2) == messageType
            && forall i | 12 <= i < 32 :: h[i] == 0
  {
    hide BigEndian, Value;
    assert Pow256(2) == 0x1_0000 && Pow256(4) == WORD;
    var h1: Header := Patch(seq(HEADER_LENGTH, _ => 0), SYNC_POS, SYNC);
    var h2 := WithField(h1, UID_POS, 4, uid);
    var h3 := WithField(h2, MSG_ID_POS, 2, msgid);
    var h := WithField(h3, TYPE_POS, 2, messageType);
    PatchedField(h1, 4, 4, uid);
    PatchedField(h2, 8, 2, msgid);
    PatchedField(h3, 10, 2, messageType);
    assert h[..4] == h3[..10][..4] == h2[..8][..4] == h1[..4];
    assert h[4..8] == h3[..10][4..8] == h2[..8][4..8];
    assert h[8..10] == h3[..10][8..10];
    assert h[12..] == h3[10..][2..] == h2[10..][2..] == h1[8..][4..];
    assert forall i | 12 <= i < 32 :: h[i] == h[12..][i - 12];
  }

  /** And it is empty, not frozen, has 128 bytes of room and is sent with a checksum of its payload. */
  lemma NewIsEmpty(msgid: nat, messageType: nat, uid: Word, limit: HeapLimit)
    ensures var p := New(msgid, messageType, uid);
            && p.payload == [] && p.cursor == 32 && p.capacity == 128 && !p.frozen && p.checked
            && p.Valid(limit) && p.Eop()
  {
  }

  /** Another serial number at bytes 4 to 7, and nothing else in the header; no payload, and no seal. */
  lemma WithUidFields(p: Packet, uid: Word)
    ensures var q := p.WithUid(uid);
            && Field(q.header, 4, 4) == uid && q.header[..4] == p.header[..4] && q.header[8..] == p.header[8..]
            && q.payload == [] && q.cursor == 32 && !q.frozen && q.checked == p.checked && q.capacity == p.capacity
  {
    assert Pow256(4) == WORD;
    PatchedField(p.header, 4, 4, uid);
  }

  /** A copy is the other packet byte by byte, read from its start, in the buffer and with the seal of this one. */
  lemma CopyIsTheOther(p: Packet, q: Packet)
    ensures var c := p.CopyOf(q);
            && c.Image() == q.Image() && c.header == q.header && c.payload == q.payload
            && c.cursor == 32 && c.Unread() == q.payload
            && c.frozen == p.frozen && c.checked == p.checked && p.capacity <= c.capacity
  {
  }

  // Sealing a header.

  function PayloadSum(payload: seq<byte>, checked: bool): (sum: seq<byte>)
    ensures |sum| == 4
  {
    if payload != [] && checked then WordBytes(Crc32(payload)) else NO_SUM
  }

  function HeaderSum(header: Header): (sum: seq<byte>)
    ensures |sum| == 4
  {
    WordBytes(Crc32(header[..CHECKSUM_POS]))
  }

  function Sealed(header: Header, payload: seq<byte>, checked: bool): (h: Header)
  {
    var h1: Header := Patch(header, PAYLOAD_CHECKSUM_POS, PayloadSum(payload, checked));
    var h2: Header := WithField(h1, PAYLOAD_LENGTH_POS, 4, |payload|);
    Patch(h2, CHECKSUM_POS, HeaderSum(h2))
  }

  /** What sealing leaves in the header, field by field. */
  lemma SealedFields(header: Header, payload: seq<byte>, checked: bool)
    ensures var h := Sealed(header, payload, checked);
            && h[..16] == header[..16]
            && h[16..20] == PayloadSum(payload, checked)
            && h[20..24] == BigEndian(|payload|, 4)
            && h[24..28] == header[24..28]
            && h[28..32] == HeaderSum(h)
  {
    hide BigEndian, PayloadSum, HeaderSum;
    var sum := PayloadSum(payload, checked);
    var h1: Header := Patch(header, 16, sum);
    var length := BigEndian(|payload|, 4);
    var h2: Header := Patch(h1, 20, length);
    var h: Header := Patch(h2, 28, HeaderSum(h2));
    PatchOutside(header, 16, sum, 0, 16);
    PatchOutside(header, 16, sum, 24, 28);
    PatchOutside(h1, 20, length, 0, 16);
    PatchOutside(h1, 20, length, 16, 20);
    PatchOutside(h1, 20, length, 24, 28);
    PatchOutside(h2, 28, HeaderSum(h2), 0, 16);
    PatchOutside(h2, 28, HeaderSum(h2), 16, 20);
    PatchOutside(h2, 28, HeaderSum(h2), 20, 24);
    PatchOutside(h2, 28, HeaderSum(h2), 24, 28);
    PatchOutside(h2, 28, HeaderSum(h2), 0, 28);
    SameSum(h, h2);
  }

  lemma SameSum(g: Header, h: Header)
    requires g[..CHECKSUM_POS] == h[..CHECKSUM_POS]
    ensures HeaderSum(g) == HeaderSum(h)
  {
  }

  /** A header is determined by its parts. */
  lemma HeaderParts(g: Header, h: Header)
    requires g[..16] == h[..16] && g[16..20] == h[16..20] && g[20..24] == h[20..24]
    requires g[24..28] == h[24..28] && g[28..32] == h[28..32]
    ensures g == h
  {
    assert g == g[..16] + g[16..20] + g[20..24] + g[24..28] + g[28..32];
    assert h == h[..16] + h[16..20] + h[20..24] + h[24..28] + h[28..32];
  }

  /** The images a receiver takes: sync word, header checksum, length, and payload checksum unless it is 0. */
  predicate Accepts(image: seq<byte>) {
    && |image| >= HEADER_LENGTH
    && image[..4] == SYNC
    && image[28..32] == HeaderSum(image[..32])
    && Field(image, PAYLOAD_LENGTH_POS, 4) == |image| - HEADER_LENGTH < MAX_LENGTH
    && (|image| == HEADER_LENGTH || image[16..20] == NO_SUM || image[16..20] == WordBytes(Crc32(image[32..])))
  }

  /** A freshly frozen packet that carries the sync word is acceptable, whatever its payload. */
  lemma FrozenIsAccepted(p: Packet)
    requires p.header[..4] == SYNC && !p.frozen && |p.payload| < MAX_LENGTH
    ensures var image := p.Freeze().Image();
            && Accepts(image)
            && image[32..] == p.payload
            && (p.payload == [] ==> image[16..20] == NO_SUM)
  {
    var h := Sealed(p.header, p.payload, p.checked);
    var image := p.Freeze().Image();
    SealedFields(p.header, p.payload, p.checked);
    ImageParts(h, p.payload);
    assert image == h + p.payload;
    assert h[..4] == h[..16][..4] == p.header[..16][..4];
    LengthField(h, |p.payload|);
  }

  /** What freezing a packet writes into its image, where it lies, and that it writes nothing else. */
  lemma FrozenFields(p: Packet)
    requires !p.frozen && |p.payload| < MAX_LENGTH
    ensures var image := p.Freeze().Image();
            && image[..16] == p.header[..16]
            && image[16..20] == (if p.checked && p.payload != [] then WordBytes(Crc32(p.payload)) else [0, 0, 0, 0])
            && Field(image, 20, 4) == |p.payload|
            && image[24..28] == p.header[24..28]
            && image[28..32] == WordBytes(Crc32(image[..28]))
            && image[32..] == p.payload
            && p.Freeze() == p.(header := image[..32], frozen := true) && p.Freeze().Freeze() == p.Freeze()
  {
    hide Crc32, WordBytes, BigEndian, Sealed;
    var h := Sealed(p.header, p.payload, p.checked);
    SealedFields(p.header, p.payload, p.checked);
    ImageParts(h, p.payload);
    LengthField(h, |p.payload|);
    var image := h + p.payload;
    assert image[..16] == h[..16] && image[24..28] == h[24..28] && image[..28] == h[..28];
  }

  /** Nothing is left to read exactly at the end of the packet. */
  lemma EopIff(p: Packet)
    requires HEADER_LENGTH <= p.cursor
    ensures p.Eop() <==> p.Unread() == []
  {
  }

  lemma LengthField(h: Header, n: nat)
    requires n < MAX_LENGTH && h[20..24] == BigEndian(n, 4)
    ensures Field(h, PAYLOAD_LENGTH_POS, 4) == n
  {
    assert Pow256(4) == 0x1_0000_0000;
    ValueOfBigEndian(n, 4);
  }

  lemma ImageParts(h: Header, payload: seq<byte>)
    ensures var image := h + payload;
            && image[..32] == h && image[32..] == payload && image[..4] == h[..4]
            && image[16..20] == h[16..20] && image[20..24] == h[20..24] && image[28..32] == h[28..32]
  {
  }
}
