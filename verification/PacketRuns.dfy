/** What holds of a packet over any sequence of operations, and what growing its buffer costs. */
module PacketRuns {
  import opened Bytes
  import opened Options
  import opened Packets
  import opened TypedFields
  import opened Wire
  import Compression
  import Framing

  datatype Op =
    | Put(bytes: Chunk)
    | Get(shape: Shape)
    | Reserve(length: Word, room: Chunk)                          // `room`: what is in the bytes that are claimed
    | Consume(length: Word)
    | Clear
    | Rewind
    | Freeze
    | CreateUid(uid: Word)
    | Copy(other: Packet)
    | Read(input: seq<byte>, events: seq<Event>, left: Packet)    // `left`: what a failed read leaves
    | Compress(level: int, codec: Compression.Codec)
    | Uncompress(codec: Compression.Codec)

  /** The check and the move are made with the 32-bit sum. */
  function ConsumeBytes(p: Packet, length: Word): Packet
    requires p.cursor < WORD
  {
    var next := Sum32(p.cursor, length);
    if p.Usage() < next then p else p.(cursor := next)
  }

  /** Where the write end is after claiming bytes whose number makes the sum wrap around. */
  function WrappedEnd(p: Packet, length: Word): nat
    requires p.Wraps(length)
  {
    p.Usage() + length - WORD
  }

  /** What a failed read may leave: any packet, in a buffer that has not shrunk, and frozen or not as before. */
  predicate LeftOver(p: Packet, q: Packet, limit: HeapLimit) {
    q.Valid(limit) && q.frozen == p.frozen && p.capacity <= q.capacity
  }

  /**
   The operations after which a packet still is one:
   - a blob or a region is got only with a length whose sum with the cursor does not wrap around, or, for a region,
     wraps around to a position behind the header
   - a region is claimed only with a length whose sum with the write end does not wrap around, or wraps around to a
     position behind the header that the cursor has not passed by more than one
   - the packet that is copied fits into memory, which copy does not check
   - a stream does not announce a length whose sum with the write end wraps around
   */
  predicate Safe(p: Packet, op: Op, limit: HeapLimit) {
    match op
    case Get(shape) => shape.BlobShape? ==> !p.Overruns(shape.length)
    case Reserve(length, _) =>
      p.Wraps(length) ==> HEADER_LENGTH <= WrappedEnd(p, length) && p.cursor <= WrappedEnd(p, length) + 1
    case Consume(length) => !p.Overruns(length) || p.cursor + length >= WORD + HEADER_LENGTH
    case Copy(other) => p.HasRoom(|other.payload|, limit)
    case Read(input, events, _) =>
      var r := Framing.Read(input, events, p, false, limit);
      r.Got? || r.Nothing?
    case _ => true
  }

  /** What an operation makes of a packet, or None if it leaves no packet behind. */
  function Step(p: Packet, op: Op, limit: HeapLimit): Option<Packet>
    requires p.Valid(limit)
  {
    match op
    case Put(bytes) => Some(p.Put(bytes, limit).1)
    case Get(shape) => if shape.BlobShape? && p.Overruns(shape.length) then None else Some(GetItem(p, shape).1)
    case Reserve(length, room) =>
      if p.Wraps(length) then
        var end := WrappedEnd(p, length);
        if end < HEADER_LENGTH then None
        else Some(p.(payload := p.payload[..end - HEADER_LENGTH]))
      else if p.CanHold(length, limit) then Some(p.Append(room))
      else Some(p)
    case Consume(length) => Some(ConsumeBytes(p, length))
    case Clear => Some(p.Clear())
    case Rewind => Some(p.Rewind())
    case Freeze => Some(p.Freeze())
    case CreateUid(uid) => Some(p.WithUid(uid))
    case Copy(other) => if p.HasRoom(|other.payload|, limit) then Some(p.CopyOf(other)) else None
    case Read(input, events, left) =>
      (match Framing.Read(input, events, p, false, limit)
       case Got(q, _, _) => Some(q)
       case Nothing(_, _, _) => Some(left)
       case _ => None)
    case Compress(level, codec) => Some(Compression.Compress(p, level, codec, limit).1)
    case Uncompress(codec) => Some(Compression.Uncompress(p, codec, limit).1)
  }

  predicate Sound(r: Option<Packet>, limit: HeapLimit) {
    r.Some? && r.value.Valid(limit)
  }

  /** What is not determined, the bytes of new room and what a failed read leaves, is possible. */
  predicate Plausible(p: Packet, op: Op, limit: HeapLimit) {
    match op
    case Reserve(length, room) => !p.Wraps(length) && p.CanHold(length, limit) ==> |room| == length
    case Read(_, _, left) => LeftOver(p, left, limit)
    case _ => true
  }

  lemma ReadKeepsValid(p: Packet, input: seq<byte>, events: seq<Event>, limit: HeapLimit)
    requires p.Valid(limit) && Framing.Read(input, events, p, false, limit).Got?
    ensures var q := Framing.Read(input, events, p, false, limit).packet; q.Valid(limit) && p.capacity <= q.capacity
  {
    var junk := Framing.ReadIsSound(input, events, p, false, limit);
    Framing.ReadRoom(input, events, p, false, limit);
  }

  lemma GetKeepsValid(p: Packet, shape: Shape, limit: HeapLimit)
    requires p.Valid(limit)
    ensures var q := GetItem(p, shape).1; q.Valid(limit) && q.capacity == p.capacity
  {
  }

  lemma RepackKeepsValid(p: Packet, payload: seq<byte>, uncompressed: nat, limit: HeapLimit)
    requires p.Valid(limit)
    ensures var q := Compression.Repacked(p, payload, uncompressed, limit).1; q.Valid(limit) && p.capacity <= q.capacity
  {
    hide Sealed, Patch, BigEndian;
  }

  lemma CodecKeepsValid(p: Packet, level: int, codec: Compression.Codec, limit: HeapLimit)
    requires p.Valid(limit)
    ensures var q := Compression.Compress(p, level, codec, limit).1; q.Valid(limit) && p.capacity <= q.capacity
    ensures var q := Compression.Uncompress(p, codec, limit).1; q.Valid(limit) && p.capacity <= q.capacity
  {
    hide Compression.Repacked;
    var packed := codec.Packed(p.payload, level);
    if packed.Some? {
      RepackKeepsValid(p, packed.value, |p.payload|, limit);
    }
    var unpacked := codec.Unpacked(p.payload, Field(p.header, UNCOMPRESSED_LENGTH_POS, 4), limit);
    if unpacked.Some? {
      RepackKeepsValid(p, unpacked.value, 0, limit);
    }
  }

  lemma PutKeepsValid(p: Packet, bytes: Chunk, limit: HeapLimit)
    requires p.Valid(limit)
    ensures var q := p.Put(bytes, limit).1; q.Valid(limit) && p.capacity <= q.capacity
  {
  }

  lemma ReserveIsSoundIff(p: Packet, length: Word, room: Chunk, limit: HeapLimit)
    requires p.Valid(limit) && Plausible(p, Reserve(length, room), limit)
    ensures Sound(Step(p, Reserve(length, room), limit), limit) <==> Safe(p, Reserve(length, room), limit)
    ensures var r := Step(p, Reserve(length, room), limit); r.Some? ==> p.capacity <= r.value.capacity
  {
  }

  lemma CopyKeepsValid(p: Packet, other: Packet, limit: HeapLimit)
    requires p.Valid(limit) && p.HasRoom(|other.payload|, limit)
    ensures p.CopyOf(other).Valid(limit) && p.capacity <= p.CopyOf(other).capacity
  {
  }

  /** Cursor and buffer stay in bounds exactly with the safe operations, and the buffer never shrinks. */
  lemma StepIsSoundIff(p: Packet, op: Op, limit: HeapLimit)
    requires p.Valid(limit) && Plausible(p, op, limit)
    ensures Sound(Step(p, op, limit), limit) <==> Safe(p, op, limit)
    ensures Step(p, op, limit).Some? ==> p.capacity <= Step(p, op, limit).value.capacity
  {
    hide Framing.Read, GetItem, Compression.Compress, Compression.Uncompress, Packet.Put, Packet.CopyOf, Packet.CanHold,
      Sealed, Patch, BigEndian;
    match op
    case Put(bytes) => PutKeepsValid(p, bytes, limit);
    case Reserve(length, room) => ReserveIsSoundIff(p, length, room, limit);
    case Get(shape) => GetKeepsValid(p, shape, limit);
    case Copy(other) =>
      if Safe(p, op, limit) {
        CopyKeepsValid(p, other, limit);
      }
    case Read(input, events, _) =>
      if Framing.Read(input, events, p, false, limit).Got? {
        ReadKeepsValid(p, input, events, limit);
      }
    case Compress(level, codec) => CodecKeepsValid(p, level, codec, limit);
    case Uncompress(codec) => CodecKeepsValid(p, 1, codec, limit);
    case _ =>
  }

  /** Whether the stream announces a wrapping length. */
  ghost predicate Announces(input: seq<byte>) {
    exists junk, header, rest :: Framing.Announced(input, junk, header, rest)
  }

  /**
   Whether a read is safe can be told from the stream: it is if the stream announces no wrapping length, and without
   time-outs and errors only then.
   */
  lemma ReadIsSafeIff(p: Packet, input: seq<byte>, events: seq<Event>, left: Packet, limit: HeapLimit)
    ensures !Announces(input) ==> Safe(p, Read(input, events, left), limit)
    ensures Benign(events) && |input| <= Credit(events) ==>
              (Safe(p, Read(input, events, left), limit) <==> !Announces(input))
  {
    hide Framing.Read, Framing.Announces;
    var r := Framing.Read(input, events, p, false, limit);
    if !r.Got? && !r.Nothing? {
      var junk := Framing.WrapIsSound(input, events, p, false, limit);
      assert Framing.Announced(input, junk, r.header, r.rest);
    }
    if junk, header: Header, rest :| Framing.Announced(input, junk, header, rest) {
      if Benign(events) && |input| <= Credit(events) {
        Framing.WrapIsComplete(junk, header, rest, events, p, false, limit);
      }
    }
  }

  /** A run that ends with the first operation that leaves no sound packet behind. */
  function Run(p: Packet, ops: seq<Op>, limit: HeapLimit): Option<Packet>
    requires p.Valid(limit)
    decreases |ops|
  {
    if ops == [] then Some(p)
    else
      var r := Step(p, ops[0], limit);
      if Sound(r, limit) then Run(r.value, ops[1..], limit) else r
  }

  predicate AllSafe(p: Packet, ops: seq<Op>, limit: HeapLimit)
    requires p.Valid(limit)
    decreases |ops|
  {
    ops == [] ||
    (Safe(p, ops[0], limit) &&
     var r := Step(p, ops[0], limit);
     Sound(r, limit) ==> AllSafe(r.value, ops[1..], limit))
  }

  predicate AllPlausible(p: Packet, ops: seq<Op>, limit: HeapLimit)
    requires p.Valid(limit)
    decreases |ops|
  {
    ops == [] ||
    (Plausible(p, ops[0], limit) &&
     var r := Step(p, ops[0], limit);
     Sound(r, limit) ==> AllPlausible(r.value, ops[1..], limit))
  }

  /** So a run ends with a sound packet if and only if every one of its operations is safe where it is called. */
  lemma {:induction false} RunIsSoundIff(p: Packet, ops: seq<Op>, limit: HeapLimit)
    requires p.Valid(limit) && AllPlausible(p, ops, limit)
    ensures Sound(Run(p, ops, limit), limit) <==> AllSafe(p, ops, limit)
    ensures Run(p, ops, limit).Some? ==> p.capacity <= Run(p, ops, limit).value.capacity
    decreases |ops|
  {
    hide Step, Safe, Plausible;
    if ops != [] {
      StepIsSoundIff(p, ops[0], limit);
      var r := Step(p, ops[0], limit);
      if Sound(r, limit) {
        RunIsSoundIff(r.value, ops[1..], limit);
      }
    }
  }

  /** From behind the header a consume of 0xFFFFFFF0 bytes reports success and moves the cursor into the header. */
  lemma ConsumeMovesBack(p: Packet, limit: HeapLimit)
    requires p.Valid(limit) && p.cursor == HEADER_LENGTH
    ensures ConsumeBytes(p, 0xFFFF_FFF0) == p.(cursor := 16) && !ConsumeBytes(p, 0xFFFF_FFF0).Valid(limit)
  {
  }

  /** A get touches nothing but the cursor, and a failed number or blob not even that. */
  lemma GetsOnlyMoveTheCursor(p: Packet, shape: Shape, limit: HeapLimit)
    requires p.Valid(limit)
    ensures var q := GetItem(p, shape).1;
            && q == p.(cursor := q.cursor) && p.cursor <= q.cursor
            && (shape.NumberShape? && !p.CanGet(shape.kind.Width()) ==> q == p && GetItem(p, shape).0.value == 0)
            && (shape.BlobShape? && !p.CanGet(shape.length) ==> q == p)
            && (q.cursor == q.Usage() + 1 <==>
                  p.cursor == p.Usage() + 1 || (shape.TextShape? && p.Unread() != [] && 0 !in p.Unread()))
  {
    if shape.TextShape? && !p.Eop() {
      assert Length(p.Unread()) == |p.Unread()| <==> 0 !in p.Unread() by {
        if Length(p.Unread()) == |p.Unread()| {
          assert p.Unread()[..|p.Unread()|] == p.Unread();
        }
      }
    }
  }

  // Growth.

  /** Puts into a packet that is never cleared, and how often the buffer had to be reallocated. */
  function PutAll(p: Packet, puts: seq<Chunk>, limit: HeapLimit): (r: (Packet, nat))
    decreases |puts|
  {
    if puts == [] then (p, 0)
    else
      var (q, k) := PutAll(p, puts[..|puts| - 1], limit);
      var last := puts[|puts| - 1];
      (q.Put(last, limit).1, if !q.CanHold(|last|, limit) || q.Usage() + |last| <= q.capacity then k else k + 1)
  }

  predicate Fresh(p: Packet) {
    p.payload == [] && p.capacity == INITIAL_PACKET_SIZE
  }

  /** The least payload that takes k reallocations. */
  function LeastPayload(k: nat): nat {
    (INCREMENT_PACKET_SIZE + 1) * (k / 2) + (if k % 2 == 1 then INITIAL_PACKET_SIZE - HEADER_LENGTH + 1 else 0)
  }

  function LeastCapacity(k: nat): nat {
    if k == 0 then INITIAL_PACKET_SIZE else HEADER_LENGTH + LeastPayload(k - 1) + INCREMENT_PACKET_SIZE
  }

  lemma LeastPayloadStep(k: nat)
    ensures LeastPayload(k) <= LeastPayload(k + 1)
    ensures HEADER_LENGTH + LeastPayload(k + 1) == LeastCapacity(k) + 1
  {
  }

  /** The buffer never has more than 511 unused bytes, and k reallocations take LeastPayload(k) bytes of payload. */
  lemma {:induction false} GrowthIsPaidFor(p: Packet, puts: seq<Chunk>, limit: HeapLimit)
    requires Fresh(p)
    ensures var (q, k) := PutAll(p, puts, limit);
            && q.Usage() <= q.capacity < q.Usage() + INCREMENT_PACKET_SIZE
            && q.capacity <= limit
            && LeastPayload(k) <= |q.payload|
            && LeastCapacity(k) <= q.capacity
    decreases |puts|
  {
    if puts != [] {
      var before, last := puts[..|puts| - 1], puts[|puts| - 1];
      GrowthIsPaidFor(p, before, limit);
      LeastPayloadStep(PutAll(p, before, limit).1);
    }
  }

  /** Puts of 97 and 416 bytes in turn. */
  function WorstPuts(k: nat): (puts: seq<Chunk>)
    ensures |puts| == k && forall i | 0 <= i < k :: puts[i] != []
  {
    if k == 0 then [] else WorstPuts(k - 1) + [seq(if k % 2 == 1 then 97 else 416, _ => 0)]
  }

  lemma WorstStep(k: nat)
    requires k > 0
    ensures var n := if k % 2 == 1 then 97 else 416;
            && HEADER_LENGTH + LeastPayload(k - 1) + n == LeastCapacity(k - 1) + 1
            && LeastPayload(k) == LeastPayload(k - 1) + n
            && LeastCapacity(k) == HEADER_LENGTH + LeastPayload(k - 1) + Growth(n)
    ensures LeastCapacity(k - 1) <= LeastCapacity(k)
  {
    LeastPayloadStep(k - 1);
    if k > 1 {
      LeastPayloadStep(k - 2);
    }
  }

  lemma PutReallocates(p: Packet, bytes: Chunk, limit: HeapLimit)
    requires bytes != [] && p.capacity < p.Usage() + |bytes| && p.Usage() + Growth(|bytes|) <= limit
    ensures p.CanHold(|bytes|, limit)
    ensures var q := p.Put(bytes, limit).1;
            q.payload == p.payload + bytes && q.capacity == p.Usage() + Growth(|bytes|)
  {
  }

  /** The bound is reached as far as memory goes: there every single put reallocates. */
  lemma {:induction false} GrowthBoundIsTight(p: Packet, k: nat, limit: HeapLimit)
    requires Fresh(p) && LeastCapacity(k) <= limit
    ensures var (q, n) := PutAll(p, WorstPuts(k), limit);
            n == k && |q.payload| == LeastPayload(k) && q.capacity == LeastCapacity(k)
  {
    if k > 0 {
      WorstStep(k);
      hide LeastPayload, LeastCapacity, Packet.Put, Packet.CanHold;
      GrowthBoundIsTight(p, k - 1, limit);
      assert WorstPuts(k)[..k - 1] == WorstPuts(k - 1);
      PutReallocates(PutAll(p, WorstPuts(k - 1), limit).0, WorstPuts(k)[k - 1], limit);
    }
  }
}
