/** From one program to the other: packets that are constructed, filled, frozen, sent, read and taken apart again. */
module Deliveries {
  import opened Bytes
  import opened Crc
  import opened Framing
  import opened Packets
  import opened Sessions
  import opened TypedFields
  import opened Uids
  import opened Wire

  /** What a program has to say: the id and type of the message, its serial number, and the values in it. */
  datatype Message = Message(msgid: nat, messageType: nat, uid: Word, items: seq<Item>) {

    ghost predicate Valid() {
      msgid < 0x1_0000 && messageType < 0x1_0000 && forall i | 0 <= i < |items| :: items[i].Valid()
    }

    /** A packet constructed for it, and everything put. */
    function Built(limit: HeapLimit): (bool, Packet)
      requires Valid()
    {
      PutItems(New(msgid, messageType, uid), items, limit)
    }
  }

  /** A packet that carries the message: in the header fields, and in what the gets yield up to its end. */
  ghost predicate Carries(p: Packet, m: Message) {
    && p.cursor == HEADER_LENGTH
    && p.header[..4] == SYNC
    && Field(p.header, 8, 2) == m.msgid
    && Field(p.header, 10, 2) == m.messageType
    && Field(p.header, 4, 4) == m.uid
    && var (items, q) := GetItems(p, Shapes(m.items)); items == m.items && q.Eop() && q.cursor == q.Usage()
  }

  lemma {:induction false} PutItemsKeepsValid(p: Packet, items: seq<Item>, limit: HeapLimit)
    requires p.Valid(limit) && forall i | 0 <= i < |items| :: items[i].Valid()
    ensures PutItems(p, items, limit).1.Valid(limit)
    decreases |items|
  {
    hide Item.Encoded;
    if items != [] && p.Put(items[0].Encoded(), limit).0 {
      PutItemsKeepsValid(p.Append(items[0].Encoded()), items[1..], limit);
    }
  }

  lemma BuiltFields(m: Message, limit: HeapLimit)
    requires m.Valid() && m.Built(limit).0
    ensures var p := m.Built(limit).1;
            && p.header == New(m.msgid, m.messageType, m.uid).header && p.payload == EncodedAll(m.items)
            && !p.frozen && p.checked && |p.payload| < MAX_LENGTH
  {
    var p := New(m.msgid, m.messageType, m.uid);
    NewFields(m.msgid, m.messageType, m.uid);
    assert p.Valid(limit);
    hide New;
    PutItemsAppends(p, m.items, limit);
    PutItemsKeepsValid(p, m.items, limit);
    assert [] + EncodedAll(m.items) == EncodedAll(m.items);
  }

  /** A packet with the frozen image of another has its payload, and its header up to the checksums. */
  lemma SameImage(p: Packet, q: Packet)
    requires !p.frozen && |p.payload| < MAX_LENGTH && q.Image() == p.Freeze().Image()
    ensures q.header[..16] == p.header[..16] && q.payload == p.payload
  {
    hide Packet.Freeze, WordBytes, BigEndian, Crc32, Value;
    FrozenFields(p);
    ImageParts(q.header, q.payload);
    assert q.header[..16] == q.Image()[..32][..16] == q.Image()[..16];
  }

  /** What is built carries the message, and so does any packet with its frozen image. */
  lemma ImageCarries(m: Message, limit: HeapLimit, q: Packet)
    requires m.Valid() && m.Built(limit).0
    requires q.Image() == m.Built(limit).1.Freeze().Image() && q.cursor == HEADER_LENGTH
    ensures Carries(q, m)
  {
    hide GetItems, Message.Built, New, Packet.Freeze, Field, Packet.Image;
    var p := m.Built(limit).1;
    BuiltFields(m, limit);
    NewFields(m.msgid, m.messageType, m.uid);
    SameImage(p, q);
    SameFields(q.header, p.header);
    assert q.Unread() == EncodedAll(m.items) + [];
    GetItemsReadsBack(q, m.items, []);
  }

  lemma SameFields(g: Header, h: Header)
    requires g[..16] == h[..16]
    ensures g[..4] == h[..4] && Field(g, 4, 4) == Field(h, 4, 4)
    ensures Field(g, 8, 2) == Field(h, 8, 2) && Field(g, 10, 2) == Field(h, 10, 2)
  {
    assert g[..4] == g[..16][..4] && h[..4] == h[..16][..4];
    assert g[4..8] == g[..16][4..8] && h[4..8] == h[..16][4..8];
    assert g[8..10] == g[..16][8..10] && h[8..10] == h[..16][8..10];
    assert g[10..12] == g[..16][10..12] && h[10..12] == h[..16][10..12];
  }

  function Packed(ms: seq<Message>, limit: HeapLimit): (ps: seq<Packet>)
    requires forall i | 0 <= i < |ms| :: ms[i].Valid()
    ensures |ps| == |ms|
  {
    seq(|ms|, i requires 0 <= i < |ms| => ms[i].Built(limit).1)
  }

  /**
   Messages that could be built and were sent arrive, whole and in order, at a receiver with room for them, however
   often either socket moves only a part.
   */
  lemma MessagesArrive(ms: seq<Message>, limit: HeapLimit, sendEvents: seq<Event>, readEvents: seq<Event>, p: Packet,
                       limit': HeapLimit)
    requires forall i | 0 <= i < |ms| ::
               && ms[i].Valid() && ms[i].Built(limit).0
               && (ms[i].items == [] || p.Clear().CanHold(|EncodedAll(ms[i].items)|, limit'))
    requires SendMany(Images(Packed(ms, limit)), sendEvents).ok
    requires var wire := SendMany(Images(Packed(ms, limit)), sendEvents).out;
             Benign(readEvents) && |wire| <= Credit(readEvents)
    ensures var s := ReadMany(|ms|, SendMany(Images(Packed(ms, limit)), sendEvents).out, readEvents, p, limit');
            && s.sound && s.rest == [] && |s.images| == |ms|
            && forall i | 0 <= i < |ms| :: |s.images[i]| >= HEADER_LENGTH && Carries(OfImage(s.images[i]), ms[i])
  {
    hide Message.Built, ReadMany, SendMany, Carries, OfImage, Packet.CanHold, Benign, Credit, Packet.Freeze, New;
    var ps := Packed(ms, limit);
    forall i | 0 <= i < |ps|
      ensures ps[i].header[..4] == SYNC && !ps[i].frozen && |ps[i].payload| < MAX_LENGTH
      ensures ps[i].payload == [] || p.Clear().CanHold(|ps[i].payload|, limit')
    {
      BuiltFields(ms[i], limit);
      NewFields(ms[i].msgid, ms[i].messageType, ms[i].uid);
    }
    EndToEnd(ps, sendEvents, readEvents, p, limit');
    var s := ReadMany(|ms|, SendMany(Images(ps), sendEvents).out, readEvents, p, limit');
    forall i | 0 <= i < |ms|
      ensures |s.images[i]| >= HEADER_LENGTH && Carries(OfImage(s.images[i]), ms[i])
    {
      assert s.images[i] == ps[i].Freeze().Image();
      FrozenLength(ps[i]);
      CursorOfImage(s.images[i]);
      ImageCarries(ms[i], limit, OfImage(s.images[i]));
    }
  }

  lemma CursorOfImage(image: seq<byte>)
    requires |image| >= HEADER_LENGTH
    ensures OfImage(image).cursor == HEADER_LENGTH
  {
  }

  /**
   A response that the other side builds with the serial number and type of a request is read as the answer to it, with
   everything that was put.
   */
  lemma ResponseArrives(m: Message, limit: HeapLimit, request: Packet, sendEvents: seq<Event>, tail: seq<byte>,
                        readEvents: seq<Event>, p: Packet, limit': HeapLimit)
    requires m.Valid() && m.Built(limit).0
    requires m.uid == Uid(request) && m.messageType == MessageType(request)
    requires m.items == [] || p.Clear().CanHold(|EncodedAll(m.items)|, limit')
    requires var sent := Send(m.Built(limit).1.Freeze().Image(), sendEvents);
             sent.ok && Benign(readEvents) && |sent.out| <= Credit(readEvents)
    ensures var sent := Send(m.Built(limit).1.Freeze().Image(), sendEvents);
            var r := Framing.Read(sent.out + tail, readEvents, p, false, limit');
            r.Got? && r.rest == tail && Carries(r.packet, m) && Answers(r.packet, request)
  {
    hide Message.Built, Framing.Read, Send, Carries, Packet.CanHold, Benign, Credit, Packet.Freeze, New, Accepts, Fits;
    var built := m.Built(limit).1;
    var image := built.Freeze().Image();
    SendsPrefix(image, sendEvents);
    BuiltFields(m, limit);
    NewFields(m.msgid, m.messageType, m.uid);
    FrozenFits(built, p, limit');
    assert [] + image + tail == image + tail;
    ReadIsComplete([], image, tail, readEvents, p, false, limit');
    var r := Framing.Read(image + tail, readEvents, p, false, limit');
    var junk := ReadIsSound(image + tail, readEvents, p, false, limit');
    ImageCarries(m, limit, r.packet);
    CarriesIsAnswer(r.packet, m, request);
  }

  lemma CarriesIsAnswer(p: Packet, m: Message, request: Packet)
    requires Carries(p, m) && m.uid == Uid(request) && m.messageType == MessageType(request)
    ensures Answers(p, request)
  {
  }

  /** What a handler answers with: a packet constructed with the id, type and serial number of the request. */
  function Reply(request: Packet, counter: Word): Packet {
    New(Field(request.header, MSG_ID_POS, 2), MessageType(request), Assigned(counter, Uid(request)))
  }

  /**
   It is taken for the answer by the session that asked, unless the request has the serial number 0, which asks for an
   automatic one: then it gets the number the handler's counter stands at.
   */
  lemma ReplyAnswersIff(request: Packet, counter: Word)
    ensures Answers(Reply(request, counter), request) <==> Uid(request) != 0 || counter == 0
    ensures Field(Reply(request, counter).header, 8, 2) == Field(request.header, 8, 2)
  {
    assert Pow256(2) == 0x1_0000 && Pow256(4) == WORD;
    NewFields(Field(request.header, MSG_ID_POS, 2), MessageType(request), Assigned(counter, Uid(request)));
  }
}
