/** The packet object: a growable buffer with a header in front, a write end and a read cursor. */
module MsgPackets {
  import opened Bytes
  import opened Crc
  import opened Packets
  import opened Uids
  import opened TypedFields
  import opened Wire
  import Compression
  import Framing
  import PacketRuns

  class MsgPacket {
    var packet: array<byte>
    var size: nat
    var usage: nat
    var readposition: nat
    var freezed: bool
    var payloadchecksum: bool
    const heap: HeapLimit

    ghost predicate Valid()
      reads this
    {
      && packet.Length == size <= heap
      && HEADER_LENGTH <= usage <= size
      && HEADER_LENGTH <= readposition <= usage + 1
    }

    ghost function View(): (p: Packet)
      requires Valid()
      reads this, packet
      ensures p.Valid(heap)
      ensures p.Usage() == usage
    {
      Packet(packet[..HEADER_LENGTH], packet[HEADER_LENGTH..usage], readposition, size, freezed, payloadchecksum)
    }

    // Storing into the buffer.

    method Store(pos: nat, bytes: seq<byte>)
      requires pos + |bytes| <= packet.Length
      modifies packet
      ensures packet[..] == Patch(old(packet[..]), pos, bytes)
    {
      forall i | 0 <= i < |bytes| {
        packet[pos + i] := bytes[i];
      }
    }

    /** writePacket within the header. */
    method StoreHeader(pos: nat, bytes: seq<byte>)
      requires Valid() && pos + |bytes| <= HEADER_LENGTH
      modifies packet
      ensures Valid() && View() == old(View()).(header := Patch(old(View()).header, pos, bytes))
    {
      ghost var before := packet[..];
      Store(pos, bytes);
      PatchHead(before, pos, bytes, usage);
      assert packet[..HEADER_LENGTH] == packet[..][..HEADER_LENGTH];
      assert packet[HEADER_LENGTH..usage] == packet[..][HEADER_LENGTH..usage];
      assert old(packet[..HEADER_LENGTH]) == before[..HEADER_LENGTH];
      assert old(packet[HEADER_LENGTH..usage]) == before[HEADER_LENGTH..usage];
    }

    /** memcpy to the end of the payload. */
    method StoreTail(at: nat, bytes: seq<byte>)
      requires Valid() && HEADER_LENGTH <= at && at + |bytes| == usage
      modifies packet
      ensures Valid() && View() == old(View()).(payload := old(View()).payload[..at - HEADER_LENGTH] + bytes)
      ensures packet[at..usage] == bytes
    {
      ghost var before := packet[..];
      Apart(at);
      Store(at, bytes);
      PatchTail(before, at, bytes);
      Apart(at);
    }

    /** The buffer in three parts. */
    lemma Apart(at: nat)
      requires Valid() && HEADER_LENGTH <= at <= usage
      ensures View().header == packet[..][..HEADER_LENGTH]
      ensures View().payload[..at - HEADER_LENGTH] == packet[..][HEADER_LENGTH..at]
      ensures packet[at..usage] == packet[..][at..usage]
      ensures View().payload == packet[..][HEADER_LENGTH..at] + packet[..][at..usage]
    {
    }

    constructor (msgid: nat, messageType: nat, uid: Word, uids: UidCounter, heap: HeapLimit)
      requires msgid < 0x1_0000 && messageType < 0x1_0000
      modifies uids
      ensures Valid() && fresh(packet) && this.heap == heap
      ensures uids.globalUID == CounterAfter(old(uids.globalUID), uid)
      ensures View() == New(msgid, messageType, Assigned(old(uids.globalUID), uid))
    {
      packet := new byte[INITIAL_PACKET_SIZE];
      size := INITIAL_PACKET_SIZE;
      usage := HEADER_LENGTH;
      readposition := HEADER_LENGTH;
      freezed := false;
      payloadchecksum := true;
      this.heap := heap;
      new;
      var serial := uids.Assign(uid);
      Store(0, seq(HEADER_LENGTH, _ => 0));
      StoreHeader(SYNC_POS, SYNC);
      StoreHeader(UID_POS, BigEndian(serial, 4));
      StoreHeader(MSG_ID_POS, BigEndian(msgid, 2));
      StoreHeader(TYPE_POS, BigEndian(messageType, 2));
    }

    method CreateUid(uids: UidCounter)
      requires Valid()
      modifies this, packet, uids
      ensures Valid() && packet == old(packet)
      ensures uids.globalUID == CounterAfter(old(uids.globalUID), 0)
      ensures View() == old(View()).WithUid(old(uids.globalUID))
    {
      var uid := uids.Assign(0);
      StoreHeader(UID_POS, BigEndian(uid, 4));
      Clear();
      freezed := false;
    }

    method Clear()
      requires Valid()
      modifies this`usage, this`readposition
      ensures Valid() && View() == old(View()).Clear()
    {
      usage := HEADER_LENGTH;
      readposition := HEADER_LENGTH;
    }

    method Rewind()
      requires Valid()
      modifies this`readposition
      ensures Valid() && View() == old(View()).Rewind()
    {
      readposition := HEADER_LENGTH;
    }

    // Putting.

    /** Makes room for more bytes, in a larger buffer if need be. Any number whose sum wraps around seems to fit. */
    method CheckPacketSize(bytes: Word) returns (ok: bool)
      requires Valid()
      modifies this`packet, this`size
      ensures Valid() && (packet == old(packet) || fresh(packet))
      ensures ok == (old(View()).Wraps(bytes) || old(View()).CanHold(bytes, heap))
      ensures old(View()).Wraps(bytes) || !ok ==> packet == old(packet) && View() == old(View())
      ensures ok && !old(View()).Wraps(bytes) ==>
                usage + bytes <= size && View() == old(View()).(capacity := old(View()).CapacityFor(bytes))
    {
      if bytes == 0 {
        return false;
      }
      if Sum32(usage, bytes) <= size {
        return true;
      }
      var more := if bytes < INCREMENT_PACKET_SIZE then INCREMENT_PACKET_SIZE else bytes;
      if usage + more > heap {
        return false;
      }
      var buffer := new byte[usage + more];
      forall i | 0 <= i < usage {
        buffer[i] := packet[i];
      }
      assert buffer[..usage] == packet[..usage];
      assert buffer[..HEADER_LENGTH] == packet[..HEADER_LENGTH];
      assert buffer[HEADER_LENGTH..usage] == packet[HEADER_LENGTH..usage];
      packet := buffer;
      size := usage + more;
      return true;
    }

    /** Appends bytes for which there is room. */
    method Extend(bytes: seq<byte>)
      requires Valid() && usage + |bytes| <= size
      modifies this`usage, packet
      ensures Valid() && View() == old(View()).(payload := old(View()).payload + bytes)
    {
      var at := usage;
      Claim(|bytes|);
      StoreTail(at, bytes);
    }

    method PutNumber(kind: Kind, v: int) returns (ok: bool)
      requires Valid() && kind.InRange(v)
      modifies this, packet
      ensures Valid() && (packet == old(packet) || fresh(packet))
      ensures (ok, View()) == old(View()).Put(kind.Encode(v), heap)
    {
      ok := CheckPacketSize(kind.Width());
      if ok {
        Extend(kind.Encode(v));
      }
    }

    /** The characters of a C string, and the NUL that ends it. */
    method PutString(s: seq<byte>) returns (ok: bool)
      requires Valid() && 0 !in s && |s| + 1 < MAX_LENGTH
      modifies this, packet
      ensures Valid() && (packet == old(packet) || fresh(packet))
      ensures (ok, View()) == old(View()).Put(s + [0], heap)
    {
      ok := CheckPacketSize(|s| + 1);
      if ok {
        Extend(s + [0]);
      }
    }

    method PutBlob(source: Chunk) returns (ok: bool)
      requires Valid()
      modifies this, packet
      ensures Valid() && (packet == old(packet) || fresh(packet))
      ensures (ok, View()) == old(View()).Put(source, heap)
    {
      hide Packet.Append, Packet.CanHold;
      ghost var p := View();
      var at: nat;
      ok, at := Reserve(|source|, false, 0);
      if ok {
        FillAppended(p, packet[at..at + |source|], source);
        StoreTail(at, source);
      }
    }

    /**
     Claims `length` bytes at the end of the payload for the caller to fill. A length whose sum with the write end
     wraps around moves the write end back instead; what filling it then overwrites is not specified.
     */
    method Reserve(length: Word, fill: bool, c: byte) returns (ok: bool, at: nat)
      requires Valid()
      modifies this, packet
      ensures packet == old(packet) || fresh(packet)
      ensures ok == (old(View()).Wraps(length) || old(View()).CanHold(length, heap))
      ensures !ok ==> Valid() && View() == old(View())
      ensures ok ==> at == old(usage)
      ensures ok && !old(View()).Wraps(length) ==>
                Valid() && usage == at + length && View() == old(View()).Append(packet[at..at + length])
      ensures ok && !old(View()).Wraps(length) && fill ==> packet[at..at + length] == seq(length, _ => c)
      ensures old(View()).Wraps(length) ==> usage == old(usage) + length - WORD && unchanged(this`packet, this`size)
      ensures old(View()).Wraps(length) ==> unchanged(this`readposition, this`freezed, this`payloadchecksum)
      ensures old(View()).Wraps(length) && !fill ==> unchanged(old(packet))
    {
      hide Packet.CanHold, Packet.CapacityFor, Packet.Append;
      ghost var p := View();
      ok := CheckPacketSize(length);
      at := usage;
      if ok {
        if usage + length >= WORD {
          usage := Sum32(usage, length);
          return;
        }
        Claim(length);
        AppendGrows(p, packet[at..usage]);
        if fill {
          FillAppended(p, packet[at..usage], seq(length, _ => c));
          StoreTail(at, seq(length, _ => c));
        }
      }
    }

    /** Moves the write end over bytes for which there is room. */
    method Claim(length: nat)
      requires Valid() && usage + length <= size
      modifies this`usage
      ensures Valid() && usage == old(usage) + length
      ensures View() == old(View()).(payload := old(View()).payload + packet[old(usage)..usage])
      ensures View().payload[..|old(View()).payload|] == old(View()).payload
    {
      ghost var held, at := View().payload, usage;
      usage := usage + length;
      assert View().payload == held + packet[at..usage];
    }

    // Getting.

    method GetNumber(kind: Kind) returns (v: int)
      requires Valid()
      modifies this`readposition
      ensures Valid() && (v, View()) == TypedFields.GetNumber(old(View()), kind)
    {
      hide Kind.Decode, Packet.Unread;
      if readposition + kind.Width() > usage {
        return 0;
      }
      UnreadSlice(kind.Width());
      v := kind.Decode(packet[readposition..readposition + kind.Width()]);
      readposition := readposition + kind.Width();
    }

    lemma UnreadSlice(n: nat)
      requires Valid() && readposition + n <= usage
      ensures View().Unread()[..n] == packet[readposition..readposition + n]
    {
      hide Packet.Unread;
      UnreadAll();
      SliceOfFront(packet[..], readposition, readposition + n, usage);
      assert packet[readposition..usage] == packet[..][readposition..usage];
    }

    lemma UnreadAll()
      requires Valid() && readposition <= usage
      ensures View().Unread() == packet[readposition..usage]
    {
      SliceOfSlice(packet[..usage], HEADER_LENGTH, readposition);
    }

    method GetString() returns (s: seq<byte>)
      requires Valid()
      modifies this`readposition
      ensures Valid() && (s, View()) == TypedFields.GetString(old(View()))
    {
      hide Length, Packet.Unread;
      if readposition >= usage {
        return [];
      }
      var maxlen := usage - readposition;
      UnreadAll();
      var value := packet[readposition..usage];
      var length := Length(value);
      readposition := readposition + length + 1;
      if length == 0 || length == maxlen {
        return [];
      }
      s := value[..length];
    }

    /** With a length whose sum with the cursor wraps around, the copy runs off the buffer. */
    method GetBlob(length: Word) returns (ok: bool, dest: seq<byte>)
      requires Valid()
      modifies this`readposition
      ensures old(View()).Overruns(length) ==> ok
      ensures !old(View()).Overruns(length) ==>
                Valid() && (ok, dest, View()) == TypedFields.GetBlob(old(View()), length)
    {
      hide Packet.Unread;
      if Sum32(readposition, length) > usage {
        return false, [];
      }
      if readposition + length >= WORD {
        return true, *;
      }
      UnreadSlice(length);
      dest := packet[readposition..readposition + length];
      readposition := readposition + length;
      ok := true;
    }

    /** With a length whose sum with the cursor wraps around, the cursor moves back, into the header maybe. */
    method Consume(length: Word) returns (ok: bool, at: nat)
      requires Valid()
      modifies this`readposition
      ensures ok == (old(View()).Overruns(length) || old(View()).CanGet(length))
      ensures ok ==> at == old(readposition) && readposition == Sum32(old(readposition), length)
      ensures !ok ==> readposition == old(readposition)
      ensures Valid() <==> !old(View()).Overruns(length) || old(readposition) + length >= WORD + HEADER_LENGTH
      ensures Valid() ==> View() == PacketRuns.ConsumeBytes(old(View()), length)
    {
      at := readposition;
      ok := !(usage < Sum32(readposition, length));
      if ok {
        readposition := Sum32(readposition, length);
      }
    }

    predicate Eop()
      requires Valid()
      reads this, packet
      ensures Eop() == View().Eop()
    {
      readposition >= usage
    }

    // Sealing and sending.

    method Freeze()
      requires Valid()
      modifies this`freezed, packet
      ensures Valid() && View() == old(View()).Freeze()
    {
      hide Crc32, WordBytes, BigEndian, Patch;
      if freezed {
        return;
      }
      ghost var p := View();
      var sum := NO_SUM;
      if usage - HEADER_LENGTH > 0 && payloadchecksum {
        var crc := Checksum(packet, HEADER_LENGTH, usage - HEADER_LENGTH);
        sum := WordBytes(crc);
      }
      assert sum == PayloadSum(p.payload, p.checked);
      StoreHeader(PAYLOAD_CHECKSUM_POS, sum);
      StoreHeader(PAYLOAD_LENGTH_POS, BigEndian(usage - HEADER_LENGTH, 4));
      var crc := Checksum(packet, 0, CHECKSUM_POS);
      assert packet[0..0 + CHECKSUM_POS] == View().header[..CHECKSUM_POS];
      StoreHeader(CHECKSUM_POS, WordBytes(crc));
      freezed := true;
    }

    /** Seals the packet and sends it in as many pieces as the socket takes. */
    method Write(fd: Socket) returns (ok: bool)
      requires Valid()
      modifies this`freezed, packet, fd`outgoing, fd`events
      ensures Valid() && View() == old(View()).Freeze()
      ensures var s := Send(old(View()).Freeze().Image(), old(fd.events));
              ok == s.ok && fd.outgoing == old(fd.outgoing) + s.out && fd.events == s.events
    {
      Freeze();
      WholeImage();
      ok := SocketWrite(fd, packet, usage);
    }

    lemma WholeImage()
      requires Valid()
      ensures packet[..usage] == View().Image()
    {
    }

    // Receiving.

    /** Reads whole words into the header until one is the sync word. */
    method ReadSync(fd: Socket) returns (rc: int)
      requires Valid()
      modifies packet, fd`incoming, fd`events
      ensures Valid() && View() == old(View()).(header := View().header)
      ensures Framing.Hunt(old(fd.incoming), old(fd.events)) == Framing.Hunted(rc, fd.incoming, fd.events)
      ensures rc == 0 ==> View().header[..4] == SYNC
    {
      hide Framing.Hunt, Receive, Patch;
      Framing.HuntStep(fd.incoming, fd.events);
      rc := ReadHeader(fd, SYNC_POS, 4);
      while rc == 0 && packet[..4] != SYNC
        invariant Valid() && View() == old(View()).(header := View().header)
        invariant Framing.Hunt(old(fd.incoming), old(fd.events))
               == if rc == 0 && View().header[..4] != SYNC then Framing.Hunt(fd.incoming, fd.events)
                  else Framing.Hunted(rc, fd.incoming, fd.events)
        decreases |fd.incoming|, if rc == 0 then 1 else 0
      {
        Framing.HuntStep(fd.incoming, fd.events);
        rc := ReadHeader(fd, SYNC_POS, 4);
      }
    }

    /** Reads bytes from the socket into the header. */
    method ReadHeader(fd: Socket, pos: nat, count: nat) returns (rc: int)
      requires Valid() && pos + count <= HEADER_LENGTH
      modifies packet, fd`incoming, fd`events
      ensures Valid()
      ensures var r := Receive(old(fd.incoming), old(fd.events), count);
              && rc == r.rc && fd.incoming == r.rest && fd.events == r.events
              && |r.got| + |r.rest| == |old(fd.incoming)| && (rc == 0 <==> |r.got| == count) && |r.got| <= count
              && View().header[pos..pos + |r.got|] == r.got
              && View() == old(View()).(header := Patch(old(View()).header, pos, r.got))
    {
      ReceiveSplits(fd.incoming, fd.events, count);
      ghost var before, got := packet[..], Receive(fd.incoming, fd.events, count).got;
      Apart(HEADER_LENGTH);
      rc := SocketRead(fd, packet, pos, count);
      PatchHead(before, pos, got, usage);
      Apart(HEADER_LENGTH);
    }

    /** Checks the header that was read, then reads and checks the payload it announces. */
    method ReadPayload(fd: Socket) returns (ok: bool)
      requires Valid() && View() == View().Clear()
      modifies this, packet, fd`incoming, fd`events
      ensures packet == old(packet) || fresh(packet)
      ensures freezed == old(freezed) && size >= old(size)
      ensures var p := old(View());
              Follows(Framing.ReadPayload(p.header, old(fd.incoming), old(fd.events), p, false, heap), ok, fd)
    {
      hide Receive, Crc32, WordBytes, HeaderSum, Framing.ReadPayload, Packet.Append, Packet.CanHold;
      ghost var p := View();
      Framing.ReadPayloadStages(p, fd.incoming, fd.events, heap);
      var intact := HeaderIntact();
      if !intact {
        return false;
      }
      var datalen := Field(packet[..HEADER_LENGTH], PAYLOAD_LENGTH_POS, 4);
      if datalen == 0 {
        return true;
      }
      var room, at := Reserve(datalen, false, 0);
      if !room {
        return false;
      }
      if datalen >= MAX_LENGTH {
        ok := NoPayload();
        assert packet[..HEADER_LENGTH] == p.header && usage == datalen - (WORD - HEADER_LENGTH);
        return;
      }
      AppendGrows(p, packet[at..usage]);
      ok := ReadBody(fd, p, datalen);
    }

    /** Reads the payload into the room claimed for it, and checks it. */
    method ReadBody(fd: Socket, ghost p: Packet, datalen: Size) returns (ok: bool)
      requires Valid() && p == p.Clear()
      requires usage == HEADER_LENGTH + datalen && View() == p.Append(packet[HEADER_LENGTH..usage])
      modifies this`payloadchecksum, this`readposition, packet, fd`incoming, fd`events
      ensures Valid()
      ensures var body := Receive(old(fd.incoming), old(fd.events), datalen);
              var q := p.Append(body.got).(checked := p.header[16..20] != NO_SUM);
              && fd.incoming == body.rest && fd.events == body.events
              && ok == (body.rc == 0 && (q.checked ==> p.header[16..20] == WordBytes(Crc32(q.payload))))
              && (ok ==> View() == q)
    {
      hide Receive, Crc32, WordBytes, Packet.Append;
      ghost var body, claimed := Receive(fd.incoming, fd.events, datalen), packet[HEADER_LENGTH..usage];
      ReceiveSplits(fd.incoming, fd.events, datalen);
      AppendGrows(p, claimed);
      AppendGrows(p, body.got);
      var rc := ReadTail(fd, HEADER_LENGTH, datalen);
      if rc != 0 {
        return false;
      }
      FillAppended(p, claimed, body.got);
      assert View() == p.Append(body.got);
      ok := PayloadIntact();
      if ok {
        Rewind();
      }
    }

    /**
     As a signed number the length is negative, so that nothing more is read, and the stored checksum alone decides.
     */
    method NoPayload() returns (ok: bool)
      requires packet.Length >= HEADER_LENGTH
      modifies this`payloadchecksum, this`readposition
      ensures payloadchecksum == (packet[..HEADER_LENGTH][16..20] != NO_SUM)
      ensures !payloadchecksum ==> ok && readposition == HEADER_LENGTH
    {
      payloadchecksum := packet[PAYLOAD_CHECKSUM_POS..PAYLOAD_CHECKSUM_POS + 4] != NO_SUM;
      assert packet[..HEADER_LENGTH][16..20] == packet[PAYLOAD_CHECKSUM_POS..PAYLOAD_CHECKSUM_POS + 4];
      if payloadchecksum {
        return *;
      }
      readposition := HEADER_LENGTH;
      return true;
    }

    /** Object and socket are as the outcome of a read says; nothing is said of the object after an undefined one. */
    ghost predicate Follows(outcome: Framing.Outcome, ok: bool, fd: Socket)
      reads this, packet, fd
    {
      && fd.incoming == outcome.rest && fd.events == outcome.events
      && match outcome
         case Got(q, _, _) => ok && Valid() && View() == q
         case Nothing(_, _, _) => !ok && Valid()
         case Broken(header, end, _, _) =>
           && ok && packet.Length == size >= HEADER_LENGTH && packet[..HEADER_LENGTH] == header
           && usage == end && readposition == HEADER_LENGTH && !payloadchecksum
         case Undefined(_, _, _) => true
    }

    /** Whether the stored header checksum is that of the header. */
    method HeaderIntact() returns (ok: bool)
      requires Valid()
      ensures ok == (View().header[28..32] == HeaderSum(View().header))
    {
      var test := Checksum(packet, 0, CHECKSUM_POS);
      assert packet[0..0 + CHECKSUM_POS] == View().header[..CHECKSUM_POS];
      assert packet[CHECKSUM_POS..CHECKSUM_POS + 4] == View().header[28..32];
      ok := packet[CHECKSUM_POS..CHECKSUM_POS + 4] == WordBytes(test);
    }

    /**
     Whether the stored payload checksum is that of the payload, or 0 for none, which turns the sender's choice into
     ours.
     */
    method PayloadIntact() returns (ok: bool)
      requires Valid()
      modifies this`payloadchecksum
      ensures Valid() && View() == old(View()).(checked := View().header[16..20] != NO_SUM)
      ensures ok == (View().checked ==> View().header[16..20] == WordBytes(Crc32(View().payload)))
    {
      var sum := packet[PAYLOAD_CHECKSUM_POS..PAYLOAD_CHECKSUM_POS + 4];
      assert sum == View().header[16..20];
      payloadchecksum := sum != NO_SUM;
      ok := true;
      if payloadchecksum {
        var crc := Checksum(packet, HEADER_LENGTH, usage - HEADER_LENGTH);
        ok := sum == WordBytes(crc);
      }
    }

    /** Reads bytes from the socket into the claimed end of the payload. */
    method ReadTail(fd: Socket, at: nat, count: nat) returns (rc: int)
      requires Valid() && HEADER_LENGTH <= at && at + count == usage
      modifies packet, fd`incoming, fd`events
      ensures Valid()
      ensures var r := Receive(old(fd.incoming), old(fd.events), count);
              && rc == r.rc && fd.incoming == r.rest && fd.events == r.events
              && (rc == 0 ==> View() == old(View()).(payload := old(View()).payload[..at - HEADER_LENGTH] + r.got))
              && View() == old(View()).(payload := View().payload)
    {
      ReceiveSplits(fd.incoming, fd.events, count);
      ghost var before, got := packet[..], Receive(fd.incoming, fd.events, count).got;
      Apart(at);
      rc := SocketRead(fd, packet, at, count);
      PatchTail(before, at, got);
      Apart(at);
    }

    /** Reads one packet from the socket into this one; `closed` is only set while looking for the sync word. */
    method Read(fd: Socket, closed: bool) returns (ok: bool, closedNow: bool)
      requires Valid()
      modifies this, packet, fd`incoming, fd`events
      ensures packet == old(packet) || fresh(packet)
      ensures freezed == old(freezed) && size >= old(size)
      ensures var outcome := Framing.Read(old(fd.incoming), old(fd.events), old(View()), closed, heap);
              && Follows(outcome, ok, fd)
              && closedNow == (if outcome.Nothing? then outcome.closed else closed)
    {
      hide Framing.ReadPayload, Framing.Hunt, Receive, Patch, HeaderSum;
      closedNow := closed;
      var ready := fd.Poll();
      if !ready {
        return false, closedNow;
      }
      Clear();
      var rc := ReadSync(fd);
      if rc != 0 {
        closedNow := rc == ECONNRESET;
        return false, closedNow;
      }
      ghost var head := Receive(fd.incoming, fd.events, HEADER_LENGTH - 4);
      ghost var before := View().header;
      rc := ReadHeader(fd, 4, HEADER_LENGTH - 4);
      if rc != 0 {
        return false, closedNow;
      }
      PatchRest(before, head.got);
      Framing.ReadPayloadIgnores(View().header, fd.incoming, fd.events, old(View()).Clear(), closedNow, heap);
      ok := ReadPayload(fd);
    }

    /** memcpy over header and payload. */
    method StoreImage(image: seq<byte>)
      requires Valid() && |image| == usage
      modifies packet
      ensures Valid() && View() == old(View()).(header := image[..HEADER_LENGTH], payload := image[HEADER_LENGTH..])
    {
      hide Patch;
      Store(0, image);
      assert packet[..][0..usage] == image;
      TwoParts(packet[..], image);
      Apart(HEADER_LENGTH);
    }

    /** Makes room for a whole image, if there is any, and takes its header and payload over. */
    method TakeOver(image: Chunk)
      requires Valid() && |image| >= HEADER_LENGTH
      modifies this, packet
      ensures Valid() && (packet == old(packet) || fresh(packet))
      ensures old(View().HasRoom(|image| - HEADER_LENGTH, heap)) ==>
                View() == old(View()).CopyOf(OfImage(image))
    {
      hide Packet.Append, Packet.CanHold;
      Clear();
      ghost var emptied := View();
      var ok, at := Reserve(|image| - HEADER_LENGTH, false, 0);
      if ok {
        AppendGrows(emptied, packet[at..usage]);
      }
      if usage == |image| {
        StoreImage(image);
      }
      Rewind();
    }

    /**
     Takes over another packet's header and payload. Nobody looks whether there is room: without it the copy runs off
     the buffer, and nothing is said of the result. Copied onto itself, a packet is emptied.
     */
    method Copy(p: MsgPacket)
      requires Valid() && p.Valid() && (p != this ==> p.packet != packet)
      modifies this, packet, p`readposition
      ensures packet == old(packet) || fresh(packet)
      ensures p == this ==> Valid() && View() == old(View()).Clear()
      ensures p != this ==> p.Valid() && p.View() == old(p.View()).Rewind()
      ensures p != this && old(View().HasRoom(|p.View().payload|, heap)) ==>
                Valid() && View() == old(View()).CopyOf(old(p.View()))
    {
      hide Packet.HasRoom;
      Clear();
      HasRoomStill(old(View()), p.usage - HEADER_LENGTH, heap);
      p.WholeImage();
      ImageApart(p.View());
      TakeOver(p.packet[..p.usage]);
      p.Rewind();
    }

    // Compression.

    /** Replaces the payload, notes its uncompressed length and seals the packet. */
    method Repack(payload: Chunk, uncompressed: nat) returns (ok: bool)
      requires Valid()
      modifies this, packet
      ensures Valid() && (packet == old(packet) || fresh(packet))
      ensures (ok, View()) == Compression.Repacked(old(View()), payload, uncompressed, heap)
    {
      hide BigEndian, Sealed;
      Clear();
      ok := PutBlob(payload);
      if ok {
        freezed := false;
        StoreHeader(UNCOMPRESSED_LENGTH_POS, BigEndian(uncompressed, 4));
        Freeze();
      }
    }

    method Compress(level: int, codec: Compression.Codec) returns (ok: bool)
      requires Valid()
      modifies this, packet
      ensures Valid() && (packet == old(packet) || fresh(packet))
      ensures (ok, View()) == Compression.Compress(old(View()), level, codec, heap)
    {
      hide Compression.Repacked;
      if level <= 0 || level > 9 || freezed {
        return false;
      }
      var uncompressedsize := usage - HEADER_LENGTH;
      if uncompressedsize == 0 {
        return true;
      }
      match codec.Packed(packet[HEADER_LENGTH..usage], level) {
        case None =>
          return false;
        case Some(compressed) =>
          ok := Repack(compressed, uncompressedsize);
      }
    }

    method Uncompress(codec: Compression.Codec) returns (ok: bool)
      requires Valid()
      modifies this, packet
      ensures Valid() && (packet == old(packet) || fresh(packet))
      ensures (ok, View()) == Compression.Uncompress(old(View()), codec, heap)
    {
      hide Compression.Repacked;
      var uncompressedsize := Field(packet[..HEADER_LENGTH], UNCOMPRESSED_LENGTH_POS, 4);
      match codec.Unpacked(packet[HEADER_LENGTH..usage], uncompressedsize, heap) {
        case None =>
          return false;
        case Some(uncompressed) =>
          ok := Repack(uncompressed, 0);
      }
    }
  }

  lemma HasRoomStill(p: Packet, n: nat, limit: HeapLimit)
    ensures p.Clear().HasRoom(n, limit) == p.HasRoom(n, limit)
    ensures p.HasRoom(0, limit)
  {
  }

  lemma ImageApart(p: Packet)
    ensures p.Image()[..HEADER_LENGTH] == p.header && p.Image()[HEADER_LENGTH..] == p.payload
  {
  }

  lemma TwoParts(s: seq<byte>, image: seq<byte>)
    requires HEADER_LENGTH <= |image| <= |s| && s[0..|image|] == image
    ensures s[..HEADER_LENGTH] == image[..HEADER_LENGTH] && s[HEADER_LENGTH..|image|] == image[HEADER_LENGTH..]
  {
  }

  lemma AppendGrows(p: Packet, bytes: seq<byte>)
    ensures p.Append(bytes) == p.(capacity := p.CapacityFor(|bytes|)).(payload := p.payload + bytes)
  {
  }

  /** Claiming room and filling it is appending. */
  lemma FillAppended(p: Packet, room: seq<byte>, bytes: seq<byte>)
    requires |room| == |bytes|
    ensures var q := p.Append(room);
            |p.payload| <= |q.payload| && q.(payload := q.payload[..|p.payload|] + bytes) == p.Append(bytes)
  {
  }

  lemma PatchHead(b: seq<byte>, pos: nat, bytes: seq<byte>, end: nat)
    requires pos + |bytes| <= HEADER_LENGTH <= end <= |b|
    ensures Patch(b, pos, bytes)[..HEADER_LENGTH] == Patch(b[..HEADER_LENGTH], pos, bytes)
    ensures Patch(b, pos, bytes)[HEADER_LENGTH..end] == b[HEADER_LENGTH..end]
  {
    var head, n := b[..HEADER_LENGTH], pos + |bytes|;
    assert Patch(b, pos, bytes) == Patch(head, pos, bytes) + b[HEADER_LENGTH..];
  }

  lemma SliceOfSlice(s: seq<byte>, i: nat, j: nat)
    requires i <= j <= |s|
    ensures s[i..][j - i..] == s[j..]
  {
  }

  lemma SliceOfFront(s: seq<byte>, i: nat, j: nat, k: nat)
    requires i <= j <= k <= |s|
    ensures s[i..k][..j - i] == s[i..j]
  {
  }

  lemma PatchRest(h: Header, rest: seq<byte>)
    requires |rest| == HEADER_LENGTH - 4
    ensures Patch(h, 4, rest) == h[..4] + rest
  {
  }

  lemma PatchTail(b: seq<byte>, end: nat, bytes: seq<byte>)
    requires HEADER_LENGTH <= end && end + |bytes| <= |b|
    ensures Patch(b, end, bytes)[HEADER_LENGTH..end] == b[HEADER_LENGTH..end]
    ensures Patch(b, end, bytes)[end..end + |bytes|] == bytes
    ensures Patch(b, end, bytes)[..HEADER_LENGTH] == b[..HEADER_LENGTH]
    ensures Patch(b, end, bytes)[HEADER_LENGTH..end + |bytes|] == b[HEADER_LENGTH..end] + bytes
  {
    assert Patch(b, end, bytes)[..end] == b[..end];
    assert Patch(b, end, bytes)[..HEADER_LENGTH] == b[..end][..HEADER_LENGTH];
  }
}
