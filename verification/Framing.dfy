/**
 Packets on a byte stream: how a receiver finds the start of a packet, checks it and takes exactly
 its bytes, and what a sender and a receiver agree on whatever the network does to the stream.
 */
module Framing {
  import opened Bytes
  import opened Crc
  import opened Options
  import opened Packets
  import opened Wire

  // The synchronisation loop.

  datatype Hunted = Hunted(rc: int, rest: seq<byte>, events: seq<Event>)

  /** Reads whole words until one is the sync word. */
  function Hunt(input: seq<byte>, events: seq<Event>): (h: Hunted)
    ensures |h.events| <= |events|
    decreases |input|
  {
    ReceiveSplits(input, events, 4);
    var r := Receive(input, events, 4);
    if r.rc != 0 || r.got == SYNC then Hunted(r.rc, r.rest, r.events) else Hunt(r.rest, r.events)
  }

  lemma HuntStep(input: seq<byte>, events: seq<Event>)
    ensures var r := Receive(input, events, 4);
            Hunt(input, events) == if r.rc != 0 || r.got == SYNC then Hunted(r.rc, r.rest, r.events)
                                   else Hunt(r.rest, r.events)
  {
  }

  /** Whole words, none of them the sync word. */
  predicate Junk(junk: seq<byte>) {
    junk == [] || (|junk| >= 4 && junk[..4] != SYNC && Junk(junk[4..]))
  }

  /** What Hunt skipped before the sync word it found. */
  lemma {:induction false} HuntSkipsJunk(input: seq<byte>, events: seq<Event>) returns (junk: seq<byte>)
    requires Hunt(input, events).rc == 0
    ensures Junk(junk) && input == junk + SYNC + Hunt(input, events).rest
    decreases |input|
  {
    var r := Receive(input, events, 4);
    ReceiveSplits(input, events, 4);
    if r.got == SYNC {
      junk := [];
    } else {
      var tail := HuntSkipsJunk(r.rest, r.events);
      junk := r.got + tail;
      assert junk[..4] == r.got && junk[4..] == tail;
    }
  }

  /** A benign network lets the loop run through any junk to the sync word behind it. */
  lemma {:induction false} HuntFindsSync(junk: seq<byte>, rest: seq<byte>, events: seq<Event>)
    requires Junk(junk) && Benign(events) && |junk| + 4 <= Credit(events)
    ensures var h := Hunt(junk + SYNC + rest, events);
            && h.rc == 0 && h.rest == rest && Benign(h.events)
            && Credit(h.events) + |junk| + 4 >= Credit(events)
    decreases |junk|
  {
    var input := junk + SYNC + rest;
    var r := Receive(input, events, 4);
    ReceiveBenign(input, events, 4);
    ReceiveDone(input, events, 4);
    if junk == [] {
      assert input[..4] == SYNC && input[4..] == rest;
    } else {
      var tail := junk[4..];
      assert input[..4] == junk[..4] && input[4..] == tail + SYNC + rest;
      HuntFindsSync(tail, rest, r.events);
    }
  }

  // Reading one packet.

  /**
   A read yields a packet or nothing. If an intact header announces so long a payload that the sum of 32 bits
   wraps around, no room is made and nothing is read: without a payload checksum the read reports success, and
   leaves the write end at `usage`, inside the header; with one, the checksum loop runs off the buffer.
   */
  datatype Outcome =
    | Got(packet: Packet, rest: seq<byte>, events: seq<Event>)
    | Nothing(closed: bool, rest: seq<byte>, events: seq<Event>)
    | Broken(header: Header, usage: nat, rest: seq<byte>, events: seq<Event>)
    | Undefined(header: Header, rest: seq<byte>, events: seq<Event>)

  /** How a read goes, and how far the stream is consumed by then. */
  function Read(input: seq<byte>, events: seq<Event>, p: Packet, closed: bool, limit: HeapLimit): (r: Outcome)
    ensures |r.events| <= |events|
  {
    if !PollReady(events) then Nothing(closed, input, AfterPoll(events))
    else ReadPacket(input, events, p.Clear(), closed, limit)
  }

  function ReadPacket(input: seq<byte>, events: seq<Event>, p: Packet, closed: bool, limit: HeapLimit): (r: Outcome)
    ensures |r.events| <= |events|
  {
    var sync := Hunt(input, events);
    if sync.rc != 0 then Nothing(sync.rc == ECONNRESET, sync.rest, sync.events)
    else
      ReceiveSplits(sync.rest, sync.events, HEADER_LENGTH - 4);
      var head := Receive(sync.rest, sync.events, HEADER_LENGTH - 4);
      if head.rc != 0 then Nothing(closed, head.rest, head.events)
      else ReadPayload(SYNC + head.got, head.rest, head.events, p, closed, limit)
  }

  function ReadPayload(header: Header, input: seq<byte>, events: seq<Event>, p: Packet, closed: bool,
                       limit: HeapLimit): (r: Outcome)
    ensures |r.events| <= |events|
  {
    var length := Field(header, PAYLOAD_LENGTH_POS, 4);
    if header[28..32] != HeaderSum(header) then Nothing(closed, input, events)
    else if length == 0 then Got(p.(header := header), input, events)
    else if p.Wraps(length) then
      if header[16..20] == NO_SUM then Broken(header, p.Usage() + length - WORD, input, events)
      else Undefined(header, input, events)
    else if !p.CanHold(length, limit) then Nothing(closed, input, events)
    else
      var body := Receive(input, events, length);
      if body.rc != 0 then Nothing(closed, body.rest, body.events)
      else
        var checked := header[16..20] != NO_SUM;
        if checked && header[16..20] != WordBytes(Crc32(body.got)) then Nothing(closed, body.rest, body.events)
        else Got(p.Append(body.got).(header := header, checked := checked), body.rest, body.events)
  }

  /** The payload part uses neither the header its packet had before nor the flag for a closed connection. */
  lemma ReadPayloadIgnores(h: Header, input: seq<byte>, events: seq<Event>, p: Packet, closed: bool, limit: HeapLimit)
    ensures var r := ReadPayload(h, input, events, p.(header := h), false, limit);
            ReadPayload(h, input, events, p, closed, limit) == if r.Nothing? then r.(closed := closed) else r
  {
  }

  /** The ways the payload part can go, for a packet that holds the header and nothing else. */
  lemma ReadPayloadStages(p: Packet, input: seq<byte>, events: seq<Event>, limit: HeapLimit)
    requires p == p.Clear()
    ensures var r, n := ReadPayload(p.header, input, events, p, false, limit), Field(p.header, PAYLOAD_LENGTH_POS, 4);
            var body := Receive(input, events, n);
            var q := p.Append(body.got).(checked := p.header[16..20] != NO_SUM);
            if p.header[28..32] != HeaderSum(p.header) then r == Nothing(false, input, events)
            else if n == 0 then r == Got(p, input, events)
            else if p.Wraps(n) then
              r == if q.checked then Undefined(p.header, input, events)
                   else Broken(p.header, n - (WORD - HEADER_LENGTH), input, events)
            else if !p.CanHold(n, limit) then r == Nothing(false, input, events)
            else if body.rc != 0 || (q.checked && p.header[16..20] != WordBytes(Crc32(q.payload))) then
              r == Nothing(false, body.rest, body.events)
            else r == Got(q, body.rest, body.events)
  {
    assert [] + Receive(input, events, Field(p.header, PAYLOAD_LENGTH_POS, 4)).got
        == Receive(input, events, Field(p.header, PAYLOAD_LENGTH_POS, 4)).got;
  }

  // What a successful read means.

  lemma ReadPayloadIsSound(header: Header, input: seq<byte>, events: seq<Event>, p: Packet, closed: bool,
                           limit: HeapLimit)
    requires p.payload == [] && header[..4] == SYNC
    requires ReadPayload(header, input, events, p, closed, limit).Got?
    ensures var r := ReadPayload(header, input, events, p, closed, limit);
            && r.packet.header == header
            && Accepts(r.packet.Image())
            && input == r.packet.payload + r.rest
            && r.packet.cursor == p.cursor
            && r.packet.frozen == p.frozen
            && r.packet.checked == (if r.packet.payload == [] then p.checked else header[16..20] != NO_SUM)
  {
    hide WordBytes, Crc32, HeaderSum;
    var r := ReadPayload(header, input, events, p, closed, limit);
    var length := Field(header, PAYLOAD_LENGTH_POS, 4);
    ImageParts(header, r.packet.payload);
    if length == 0 {
      assert input == [] + input;
    } else {
      ReceiveSplits(input, events, length);
      assert r.packet.payload == Receive(input, events, length).got;
    }
  }

  lemma HeadIsSound(input: seq<byte>, events: seq<Event>)
    requires Receive(input, events, HEADER_LENGTH - 4).rc == 0
    ensures var r := Receive(input, events, HEADER_LENGTH - 4);
            |r.got| == HEADER_LENGTH - 4 && (SYNC + r.got)[..4] == SYNC && SYNC + input == (SYNC + r.got) + r.rest
  {
    ReceiveDone(input, events, HEADER_LENGTH - 4);
  }

  /** Every packet read is a whole, valid image, taken from behind nothing but junk. */
  lemma ReadIsSound(input: seq<byte>, events: seq<Event>, p: Packet, closed: bool, limit: HeapLimit)
    returns (junk: seq<byte>)
    requires Read(input, events, p, closed, limit).Got?
    ensures var r := Read(input, events, p, closed, limit);
            && Junk(junk)
            && Accepts(r.packet.Image())
            && input == junk + r.packet.Image() + r.rest
            && r.packet.cursor == HEADER_LENGTH
            && r.packet.frozen == p.frozen
            && r.packet.checked == (if r.packet.payload == [] then p.checked else r.packet.header[16..20] != NO_SUM)
  {
    hide ReadPayload, Receive, Hunt, Accepts;
    junk := HuntSkipsJunk(input, events);
    var sync := Hunt(input, events);
    HeadIsSound(sync.rest, sync.events);
    var head := Receive(sync.rest, sync.events, HEADER_LENGTH - 4);
    var header: Header := SYNC + head.got;
    ReadPayloadIsSound(header, head.rest, head.events, p.Clear(), closed, limit);
    var r := Read(input, events, p, closed, limit);
    calc {
      input;
      junk + SYNC + sync.rest;
      junk + (SYNC + sync.rest);
      junk + (header + head.rest);
      junk + (header + (r.packet.payload + r.rest));
      junk + r.packet.Image() + r.rest;
    }
  }

  /** An intact header whose length makes the write end wrap around. */
  predicate Announces(header: Header) {
    && header[..4] == SYNC
    && header[28..32] == HeaderSum(header)
    && Field(header, PAYLOAD_LENGTH_POS, 4) >= WORD - HEADER_LENGTH
  }

  lemma WrappedPayload(header: Header, input: seq<byte>, events: seq<Event>, p: Packet, closed: bool, limit: HeapLimit)
    requires p == p.Clear() && header[..4] == SYNC
    ensures var r := ReadPayload(header, input, events, p, closed, limit);
            && (r.Broken? || r.Undefined? <==> Announces(header))
            && (r.Broken? ==>
                  r == Broken(header, Field(header, PAYLOAD_LENGTH_POS, 4) - (WORD - HEADER_LENGTH), input, events))
            && (r.Undefined? ==> r == Undefined(header, input, events))
            && (Announces(header) ==> (r.Broken? <==> header[16..20] == NO_SUM))
  {
    hide WordBytes, Crc32, HeaderSum, Receive;
  }

  /** A read only goes wrong at such a header, taken from behind nothing but junk. */
  lemma WrapIsSound(input: seq<byte>, events: seq<Event>, p: Packet, closed: bool, limit: HeapLimit)
    returns (junk: seq<byte>)
    requires Read(input, events, p, closed, limit).Broken? || Read(input, events, p, closed, limit).Undefined?
    ensures var r := Read(input, events, p, closed, limit);
            && Junk(junk) && Announces(r.header)
            && input == junk + r.header + r.rest
            && (r.Broken? <==> r.header[16..20] == NO_SUM)
            && (r.Broken? ==> r.usage == Field(r.header, PAYLOAD_LENGTH_POS, 4) - (WORD - HEADER_LENGTH))
  {
    hide ReadPayload, Receive, Hunt, Announces;
    junk := HuntSkipsJunk(input, events);
    var sync := Hunt(input, events);
    HeadIsSound(sync.rest, sync.events);
    var head := Receive(sync.rest, sync.events, HEADER_LENGTH - 4);
    var header: Header := SYNC + head.got;
    WrappedPayload(header, head.rest, head.events, p.Clear(), closed, limit);
    assert input == junk + (SYNC + sync.rest);
  }

  /** A reader whose memory suffices for the image. */
  predicate Fits(image: seq<byte>, p: Packet, limit: HeapLimit) {
    |image| > HEADER_LENGTH ==> p.Clear().CanHold(|image| - HEADER_LENGTH, limit)
  }

  lemma ReadPayloadIsComplete(header: Header, payload: seq<byte>, rest: seq<byte>, events: seq<Event>, p: Packet,
                              closed: bool, limit: HeapLimit)
    requires Accepts(header + payload) && p == p.Clear() && Fits(header + payload, p, limit)
    requires Benign(events) && |payload| <= Credit(events)
    ensures var r := ReadPayload(header, payload + rest, events, p, closed, limit);
            && r.Got? && r.packet.header == header && r.packet.payload == payload && r.rest == rest
            && Benign(r.events) && Credit(r.events) + |payload| >= Credit(events)
  {
    hide WordBytes, Crc32, HeaderSum, Receive;
    var input := payload + rest;
    ImageParts(header, payload);
    assert Field(header, PAYLOAD_LENGTH_POS, 4) == |payload|;
    if payload == [] {
      assert input == rest;
    } else {
      ReceiveBenign(input, events, |payload|);
      ReceiveDone(input, events, |payload|);
      assert input[..|payload|] == payload && input[|payload|..] == rest;
    }
  }

  lemma HeaderApart(image: seq<byte>)
    requires |image| >= HEADER_LENGTH && image[..4] == SYNC
    ensures image[..32] + image[32..] == image
    ensures SYNC + image[..32][4..] == image[..32]
  {
    assert image[..32] == image[..32][..4] + image[..32][4..];
  }

  lemma TailApart(image: seq<byte>, rest: seq<byte>)
    requires |image| >= HEADER_LENGTH && image[..4] == SYNC
    ensures var tail := image[..32][4..] + (image[32..] + rest);
            SYNC + tail == image + rest && tail[..28] == image[..32][4..] && tail[28..] == image[32..] + rest
  {
    HeaderApart(image);
    var head := image[..32][4..];
    assert SYNC + (head + (image[32..] + rest)) == (SYNC + head) + image[32..] + rest;
  }

  /** A benign network lets a read come to the header behind any junk. */
  lemma HeaderIsReached(junk: seq<byte>, header: Header, rest: seq<byte>, events: seq<Event>, p: Packet, closed: bool,
                        limit: HeapLimit) returns (later: seq<Event>)
    requires Junk(junk) && header[..4] == SYNC
    requires Benign(events) && |junk| + HEADER_LENGTH <= Credit(events)
    ensures Read(junk + header + rest, events, p, closed, limit)
         == ReadPayload(header, rest, later, p.Clear(), closed, limit)
    ensures Benign(later) && Credit(later) + |junk| + HEADER_LENGTH >= Credit(events)
  {
    var tail := header[4..] + rest;
    HeaderApart(header);
    assert PollReady(events);
    hide ReadPayload, Receive, Hunt;
    assert header == SYNC + header[4..];
    assert junk + header + rest == junk + SYNC + tail;
    HuntFindsSync(junk, tail, events);
    var sync := Hunt(junk + header + rest, events);
    ReceiveBenign(tail, sync.events, HEADER_LENGTH - 4);
    ReceiveDone(tail, sync.events, HEADER_LENGTH - 4);
    later := Receive(tail, sync.events, HEADER_LENGTH - 4).events;
    assert tail[..28] == header[4..] && tail[28..] == rest;
  }

  /** A benign network delivers whatever acceptable image comes first behind junk, and nothing of what follows. */
  lemma ReadIsComplete(junk: seq<byte>, image: seq<byte>, rest: seq<byte>, events: seq<Event>, p: Packet,
                       closed: bool, limit: HeapLimit)
    requires Junk(junk) && Accepts(image) && Fits(image, p, limit)
    requires Benign(events) && |junk| + |image| <= Credit(events)
    ensures var r := Read(junk + image + rest, events, p, closed, limit);
            && r.Got? && r.packet.Image() == image && r.rest == rest
            && Benign(r.events) && Credit(r.events) + |junk| + |image| >= Credit(events)
  {
    var header: Header, payload := image[..32], image[32..];
    HeaderApart(image);
    assert header[..4] == SYNC && junk + image + rest == junk + header + (payload + rest);
    hide Read, ReadPayload, Accepts, Benign, Credit;
    var later := HeaderIsReached(junk, header, payload + rest, events, p, closed, limit);
    ReadPayloadIsComplete(header, payload, rest, later, p.Clear(), closed, limit);
  }

  /** And at every such header it does. */
  lemma WrapIsComplete(junk: seq<byte>, header: Header, rest: seq<byte>, events: seq<Event>, p: Packet, closed: bool,
                       limit: HeapLimit)
    requires Junk(junk) && Announces(header)
    requires Benign(events) && |junk| + HEADER_LENGTH <= Credit(events)
    ensures var r := Read(junk + header + rest, events, p, closed, limit);
            && (r.Broken? || r.Undefined?) && r.header == header && r.rest == rest
            && (r.Broken? <==> header[16..20] == NO_SUM)
            && (r.Broken? ==> r.usage == Field(header, PAYLOAD_LENGTH_POS, 4) - (WORD - HEADER_LENGTH))
  {
    hide Read, ReadPayload, Benign, Credit;
    assert header[..4] == SYNC;
    var later := HeaderIsReached(junk, header, rest, events, p, closed, limit);
    WrappedPayload(header, rest, later, p.Clear(), closed, limit);
  }

  /** input holds `image`, first behind junk, and the reader has room for it. */
  ghost predicate Offers(input: seq<byte>, junk: seq<byte>, image: seq<byte>, rest: seq<byte>, p: Packet,
                         limit: HeapLimit)
  {
    Junk(junk) && Accepts(image) && Fits(image, p, limit) && input == junk + image + rest
  }

  /** Without time-outs and errors a read succeeds exactly when there is a packet to be had. */
  lemma ReadSucceedsIffOffered(input: seq<byte>, events: seq<Event>, p: Packet, closed: bool, limit: HeapLimit)
    requires Benign(events) && |input| <= Credit(events)
    ensures Read(input, events, p, closed, limit).Got?
       <==> exists junk, image, rest :: Offers(input, junk, image, rest, p, limit)
  {
    var r := Read(input, events, p, closed, limit);
    if r.Got? {
      var junk := ReadIsSound(input, events, p, closed, limit);
      ReadFits(input, events, p, closed, limit);
      assert Offers(input, junk, r.packet.Image(), r.rest, p, limit);
    }
    if junk, image, rest :| Offers(input, junk, image, rest, p, limit) {
      ReadIsComplete(junk, image, rest, events, p, closed, limit);
    }
  }

  /** input holds a header, first behind junk, at which reading goes wrong. */
  predicate Announced(input: seq<byte>, junk: seq<byte>, header: Header, rest: seq<byte>) {
    Junk(junk) && Announces(header) && input == junk + header + rest
  }

  /** Without time-outs and errors, when a read reports a success that is none, and when it leaves its buffer. */
  lemma ReadGoesWrongIff(input: seq<byte>, events: seq<Event>, p: Packet, closed: bool, limit: HeapLimit)
    requires Benign(events) && |input| <= Credit(events)
    ensures var r := Read(input, events, p, closed, limit);
            && (r.Broken? <==> exists j, h, x :: Announced(input, j, h, x) && h[16..20] == NO_SUM)
            && (r.Undefined? <==> exists j, h, x :: Announced(input, j, h, x) && h[16..20] != NO_SUM)
  {
    hide Read, Announces;
    var r := Read(input, events, p, closed, limit);
    if r.Broken? || r.Undefined? {
      var junk := WrapIsSound(input, events, p, closed, limit);
      assert Announced(input, junk, r.header, r.rest);
    }
    if j, h: Header, x :| Announced(input, j, h, x) && h[16..20] == NO_SUM {
      WrapIsComplete(j, h, x, events, p, closed, limit);
    }
    if j, h: Header, x :| Announced(input, j, h, x) && h[16..20] != NO_SUM {
      WrapIsComplete(j, h, x, events, p, closed, limit);
    }
  }

  /** A header with the sync word, this length and the checksum that belongs to them, and zeros otherwise. */
  function Announcement(length: Word): Header {
    var h0: Header := Patch(seq(HEADER_LENGTH, _ => 0), SYNC_POS, SYNC);
    var h1: Header := WithField(h0, PAYLOAD_LENGTH_POS, 4, length);
    Patch(h1, CHECKSUM_POS, HeaderSum(h1))
  }

  lemma AnnouncementParts(length: Word)
    ensures var h := Announcement(length);
            && h[..4] == SYNC && h[16..20] == NO_SUM && h[28..32] == HeaderSum(h)
            && Field(h, PAYLOAD_LENGTH_POS, 4) == length
  {
    hide HeaderSum, BigEndian;
    var zeros: Header := seq(HEADER_LENGTH, _ => 0);
    var h0: Header := Patch(zeros, SYNC_POS, SYNC);
    var h1: Header := WithField(h0, PAYLOAD_LENGTH_POS, 4, length);
    var h: Header := Announcement(length);
    PatchOutside(zeros, 0, SYNC, 16, 20);
    PatchOutside(h0, 20, BigEndian(length, 4), 0, 4);
    PatchOutside(h0, 20, BigEndian(length, 4), 16, 20);
    PatchOutside(h1, 28, HeaderSum(h1), 0, 4);
    PatchOutside(h1, 28, HeaderSum(h1), 16, 20);
    PatchOutside(h1, 28, HeaderSum(h1), 20, 24);
    PatchOutside(h1, 28, HeaderSum(h1), 0, 28);
    SameSum(h, h1);
    assert zeros[16..20] == NO_SUM && Pow256(4) == WORD;
    ValueOfBigEndian(length, 4);
  }

  lemma AnnouncementAnnounces(length: Word)
    requires length >= WORD - HEADER_LENGTH
    ensures var h := Announcement(length);
            Announces(h) && h[16..20] == NO_SUM && Field(h, PAYLOAD_LENGTH_POS, 4) == length
  {
    hide Announcement, HeaderSum;
    AnnouncementParts(length);
  }

  lemma AnnouncementIsReadAsSuccess(length: Word, rest: seq<byte>, events: seq<Event>, p: Packet, closed: bool,
                                    limit: HeapLimit)
    requires length >= WORD - HEADER_LENGTH
    requires Benign(events) && HEADER_LENGTH <= Credit(events)
    ensures var r := Read(Announcement(length) + rest, events, p, closed, limit);
            r.Broken? && r.usage == length - (WORD - HEADER_LENGTH) && r.rest == rest
  {
    hide Read, Announcement, Announces, Benign, Credit;
    var header := Announcement(length);
    AnnouncementAnnounces(length);
    assert [] + header + rest == header + rest;
    WrapIsComplete([], header, rest, events, p, closed, limit);
  }

  /** An input at which it happens: 0xFFFFFFE0 bytes announced, none sent, success reported, and the write end at 0. */
  lemma WrappingLengthIsReadAsSuccess(rest: seq<byte>, events: seq<Event>, p: Packet, closed: bool, limit: HeapLimit)
    requires Benign(events) && HEADER_LENGTH <= Credit(events)
    ensures var r := Read(Announcement(0xFFFF_FFE0) + rest, events, p, closed, limit);
            r.Broken? && r.usage == 0 && r.rest == rest
  {
    hide Read, Announcement, Benign, Credit;
    AnnouncementIsReadAsSuccess(0xFFFF_FFE0, rest, events, p, closed, limit);
  }

  lemma ReadFits(input: seq<byte>, events: seq<Event>, p: Packet, closed: bool, limit: HeapLimit)
    requires Read(input, events, p, closed, limit).Got?
    ensures Fits(Read(input, events, p, closed, limit).packet.Image(), p, limit)
  {
    var sync := Hunt(input, events);
    ReceiveSplits(sync.rest, sync.events, HEADER_LENGTH - 4);
    var head := Receive(sync.rest, sync.events, HEADER_LENGTH - 4);
    var header: Header := SYNC + head.got;
    ReceiveSplits(head.rest, head.events, Field(header, PAYLOAD_LENGTH_POS, 4));
  }

  // The bytes alone decide what is read.

  lemma {:induction false} JunkIsUnique(j: seq<byte>, x: seq<byte>, k: seq<byte>, y: seq<byte>)
    requires Junk(j) && Junk(k) && j + SYNC + x == k + SYNC + y
    ensures j == k && x == y
    decreases |j|
  {
    var s, t := j + SYNC + x, k + SYNC + y;
    FirstWord(j, x);
    FirstWord(k, y);
    if j == [] {
      assert s[4..] == x && t[4..] == y;
    } else {
      assert s[..4] == j[..4] && t[..4] == k[..4];
      assert s[4..] == j[4..] + SYNC + x && t[4..] == k[4..] + SYNC + y;
      JunkIsUnique(j[4..], x, k[4..], y);
      assert j == j[..4] + j[4..] && k == k[..4] + k[4..];
    }
  }

  lemma FirstWord(junk: seq<byte>, rest: seq<byte>)
    requires Junk(junk)
    ensures (junk + SYNC + rest)[..4] == SYNC <==> junk == []
  {
    if junk != [] {
      assert (junk + SYNC + rest)[..4] == junk[..4];
    }
  }

  /** An image ends where its own length field says. */
  lemma ImageIsUnique(a: seq<byte>, x: seq<byte>, b: seq<byte>, y: seq<byte>)
    requires Accepts(a) && Accepts(b) && a + x == b + y
    ensures a == b && x == y
  {
    assert a[20..24] == (a + x)[20..24] && b[20..24] == (b + y)[20..24];
    assert (a + x)[..|a|] == a && (b + y)[..|b|] == b;
    assert (a + x)[|a|..] == x && (b + y)[|b|..] == y;
  }

  lemma BehindJunk(junk: seq<byte>, image: seq<byte>, rest: seq<byte>)
    requires |image| >= HEADER_LENGTH && image[..4] == SYNC
    ensures junk + image + rest == junk + SYNC + (image[4..] + rest)
  {
    assert image == SYNC + image[4..];
  }

  lemma OfferIsUnique(j: seq<byte>, a: seq<byte>, x: seq<byte>, k: seq<byte>, b: seq<byte>, y: seq<byte>)
    requires Junk(j) && Junk(k) && Accepts(a) && Accepts(b) && j + a + x == k + b + y
    ensures j == k && a == b && x == y
  {
    BehindJunk(j, a, x);
    BehindJunk(k, b, y);
    JunkIsUnique(j, a[4..] + x, k, b[4..] + y);
    assert a + x == SYNC + (a[4..] + x) by {
      assert a == SYNC + a[4..];
    }
    assert b + y == SYNC + (b[4..] + y) by {
      assert b == SYNC + b[4..];
    }
    ImageIsUnique(a, x, b, y);
  }

  /**
   However the stream is cut into pieces, two successful reads of it yield the same packet and leave the same rest.
   */
  lemma ChunkingIsInvisible(input: seq<byte>, events: seq<Event>, p: Packet, limit: HeapLimit,
                            events': seq<Event>, p': Packet, limit': HeapLimit, closed: bool)
    requires Read(input, events, p, closed, limit).Got? && Read(input, events', p', closed, limit').Got?
    ensures var r, r' := Read(input, events, p, closed, limit), Read(input, events', p', closed, limit');
            r.packet.Image() == r'.packet.Image() && r.rest == r'.rest
  {
    hide Read;
    var junk := ReadIsSound(input, events, p, closed, limit);
    var junk' := ReadIsSound(input, events', p', closed, limit');
    var r, r' := Read(input, events, p, closed, limit), Read(input, events', p', closed, limit');
    OfferIsUnique(junk, r.packet.Image(), r.rest, junk', r'.packet.Image(), r'.rest);
  }

  // Streams of packets.

  function Concat(images: seq<seq<byte>>): seq<byte> {
    if images == [] then [] else images[0] + Concat(images[1..])
  }

  /** What reading a stream yielded, and whether no read went wrong. */
  datatype Stream = Stream(images: seq<seq<byte>>, sound: bool, rest: seq<byte>, events: seq<Event>)

  /** n reads into one packet object, up to the first that yields no packet. */
  function ReadMany(n: nat, input: seq<byte>, events: seq<Event>, p: Packet, limit: HeapLimit): Stream {
    if n == 0 then Stream([], true, input, events)
    else
      var r := Read(input, events, p, false, limit);
      if r.Got? then
        var s := ReadMany(n - 1, r.rest, r.events, r.packet, limit);
        s.(images := [r.packet.Image()] + s.images)
      else Stream([], r.Nothing?, r.rest, r.events)
  }

  /** Packets sent one after the other, up to the first that fails. */
  function SendMany(images: seq<seq<byte>>, events: seq<Event>): Sent {
    if images == [] then Sent(true, [], events)
    else
      var first := Send(images[0], events);
      if !first.ok then first
      else
        var s := SendMany(images[1..], first.events);
        s.(out := first.out + s.out)
  }

  lemma FitsStill(image: seq<byte>, p: Packet, q: Packet, limit: HeapLimit)
    requires Fits(image, p, limit) && p.capacity <= q.capacity
    ensures Fits(image, q, limit)
  {
  }

  /** What was read lies in a buffer that has not shrunk, and not grown beyond memory. */
  lemma ReadRoom(input: seq<byte>, events: seq<Event>, p: Packet, closed: bool, limit: HeapLimit)
    requires Read(input, events, p, closed, limit).Got?
    ensures var q := Read(input, events, p, closed, limit).packet;
            && p.capacity <= q.capacity
            && (HEADER_LENGTH <= p.capacity <= limit ==> q.Usage() <= q.capacity <= limit)
  {
    var sync := Hunt(input, events);
    ReceiveSplits(sync.rest, sync.events, HEADER_LENGTH - 4);
    var head := Receive(sync.rest, sync.events, HEADER_LENGTH - 4);
    var header: Header := SYNC + head.got;
    ReceiveSplits(head.rest, head.events, Field(header, PAYLOAD_LENGTH_POS, 4));
  }

  /** Images written back to back come out one by one, byte for byte, and nothing else is consumed. */
  lemma {:induction false} StreamIsFramed(images: seq<seq<byte>>, tail: seq<byte>, events: seq<Event>, p: Packet,
                                          limit: HeapLimit)
    requires forall i | 0 <= i < |images| :: Accepts(images[i]) && Fits(images[i], p, limit)
    requires Benign(events) && |Concat(images)| <= Credit(events)
    ensures var s := ReadMany(|images|, Concat(images) + tail, events, p, limit);
            s.images == images && s.sound && s.rest == tail
    decreases |images|
  {
    hide Read, Accepts, Fits;
    if images == [] {
      assert Concat(images) + tail == tail;
    } else {
      var rest := Concat(images[1..]) + tail;
      assert Concat(images) + tail == [] + images[0] + rest;
      ReadIsComplete([], images[0], rest, events, p, false, limit);
      ReadRoom(Concat(images) + tail, events, p, false, limit);
      var r := Read(Concat(images) + tail, events, p, false, limit);
      forall i | 0 <= i < |images[1..]|
        ensures Accepts(images[1..][i]) && Fits(images[1..][i], r.packet, limit)
      {
        assert images[1..][i] == images[i + 1];
        FitsStill(images[i + 1], p, r.packet, limit);
      }
      StreamIsFramed(images[1..], tail, r.events, r.packet, limit);
      assert images == [images[0]] + images[1..];
    }
  }

  /** A sender that reports success for every packet has put exactly their images onto the wire, in order. */
  lemma {:induction false} SendManySendsAll(images: seq<seq<byte>>, events: seq<Event>)
    ensures var s := SendMany(images, events);
            s.out <= Concat(images) && (s.ok ==> s.out == Concat(images))
    decreases |images|
  {
    if images != [] {
      SendsPrefix(images[0], events);
      SendManySendsAll(images[1..], Send(images[0], events).events);
      var all, rest := Concat(images), Concat(images[1..]);
      assert all[..|images[0]|] == images[0] && all[|images[0]|..] == rest;
    }
  }

  function Images(ps: seq<Packet>): (images: seq<seq<byte>>)
    ensures |images| == |ps|
  {
    seq(|ps|, i requires 0 <= i < |ps| => ps[i].Freeze().Image())
  }

  lemma FrozenFits(sent: Packet, p: Packet, limit: HeapLimit)
    requires sent.header[..4] == SYNC && !sent.frozen && |sent.payload| < MAX_LENGTH
    requires sent.payload == [] || p.Clear().CanHold(|sent.payload|, limit)
    ensures var image := sent.Freeze().Image();
            Accepts(image) && Fits(image, p, limit) && image[32..] == sent.payload
  {
    FrozenIsAccepted(sent);
  }

  /** From sender to receiver: any packets, any partial sends, any benign cutting of the stream. */
  lemma EndToEnd(ps: seq<Packet>, sendEvents: seq<Event>, readEvents: seq<Event>, p: Packet, limit: HeapLimit)
    requires forall i | 0 <= i < |ps| :: ps[i].header[..4] == SYNC && !ps[i].frozen && |ps[i].payload| < MAX_LENGTH
    requires forall i | 0 <= i < |ps| :: ps[i].payload == [] || p.Clear().CanHold(|ps[i].payload|, limit)
    requires SendMany(Images(ps), sendEvents).ok
    requires var wire := SendMany(Images(ps), sendEvents).out; Benign(readEvents) && |wire| <= Credit(readEvents)
    ensures var wire := SendMany(Images(ps), sendEvents).out;
            var s := ReadMany(|ps|, wire, readEvents, p, limit);
            && s.rest == [] && s.sound && |s.images| == |ps|
            && forall i | 0 <= i < |ps| :: s.images[i] == ps[i].Freeze().Image() && s.images[i][32..] == ps[i].payload
  {
    hide Accepts, Fits, ReadMany, SendMany;
    var images := Images(ps);
    var wire := SendMany(images, sendEvents).out;
    SendManySendsAll(images, sendEvents);
    forall i | 0 <= i < |images|
      ensures Accepts(images[i]) && images[i][32..] == ps[i].payload && Fits(images[i], p, limit)
    {
      FrozenFits(ps[i], p, limit);
    }
    assert wire == Concat(images) + [];
    StreamIsFramed(images, [], readEvents, p, limit);
  }

  lemma AcceptedIsNoAnnouncement(image: seq<byte>, x: seq<byte>, junk: seq<byte>, header: Header, y: seq<byte>)
    requires Accepts(image) && Junk(junk) && Announces(header)
    ensures image + x != junk + header + y
  {
    hide HeaderSum;
    if image + x == junk + header + y {
      BehindJunk([], image, x);
      BehindJunk(junk, header, y);
      assert [] + image + x == image + x;
      assert image[20..24] == (image[4..] + x)[16..20] && header[20..24] == (header[4..] + y)[16..20];
      JunkIsUnique([], image[4..] + x, junk, header[4..] + y);
    }
  }

  lemma PrefixTail(a: seq<byte>, rest: seq<byte>, more: seq<byte>, tail: seq<byte>)
    requires rest + more == tail
    ensures rest <= tail
  {
    assert tail[..|rest|] == rest;
  }

  lemma Extended(all: seq<byte>, wire: seq<byte>, a: seq<byte>, b: seq<byte>, c: seq<byte>)
    requires wire <= all && wire == a + b + c
    ensures all == a + b + (c + all[|wire|..])
  {
    assert all == wire + all[|wire|..];
  }

  /** The packet that a read takes where an image lies is that image. */
  lemma GotIsNext(image: seq<byte>, tail: seq<byte>, wire: seq<byte>, events: seq<Event>, p: Packet, limit: HeapLimit)
    requires Accepts(image) && wire <= image + tail && Read(wire, events, p, false, limit).Got?
    ensures var r := Read(wire, events, p, false, limit); r.packet.Image() == image && r.rest <= tail
  {
    hide Read, Accepts;
    var r := Read(wire, events, p, false, limit);
    var junk := ReadIsSound(wire, events, p, false, limit);
    var all, more := image + tail, (image + tail)[|wire|..];
    Extended(all, wire, junk, r.packet.Image(), r.rest);
    assert [] + image + tail == all;
    OfferIsUnique(junk, r.packet.Image(), r.rest + more, [], image, tail);
    PrefixTail(wire, r.rest, more, tail);
  }

  /** And reading there does not go wrong. */
  lemma ImageIsReadWell(image: seq<byte>, tail: seq<byte>, wire: seq<byte>, events: seq<Event>, p: Packet,
                        limit: HeapLimit)
    requires Accepts(image) && wire <= image + tail
    ensures var r := Read(wire, events, p, false, limit); r.Got? || r.Nothing?
  {
    hide Read, Accepts, Announces;
    var r := Read(wire, events, p, false, limit);
    if !r.Got? && !r.Nothing? {
      var junk := WrapIsSound(wire, events, p, false, limit);
      Extended(image + tail, wire, junk, r.header, r.rest);
      AcceptedIsNoAnnouncement(image, tail, junk, r.header, r.rest + (image + tail)[|wire|..]);
    }
  }

  lemma NothingIsRead(events: seq<Event>, p: Packet, limit: HeapLimit)
    ensures Read([], events, p, false, limit).Nothing?
  {
    hide Accepts, Announces, ReadPayload, Receive, Hunt;
    var r := Read([], events, p, false, limit);
    if r.Got? {
      var junk := ReadIsSound([], events, p, false, limit);
      AcceptedIsLong(r.packet.Image());
    } else if !r.Nothing? {
      var junk := WrapIsSound([], events, p, false, limit);
    }
  }

  /** What the next read takes off a stream of images, if it takes anything, is the first of them. */
  lemma NextIsFirst(images: seq<seq<byte>>, wire: seq<byte>, events: seq<Event>, p: Packet, limit: HeapLimit)
    requires forall i | 0 <= i < |images| :: Accepts(images[i])
    requires wire <= Concat(images)
    ensures var r := Read(wire, events, p, false, limit);
            && (r.Got? || r.Nothing?)
            && (r.Got? ==> images != [] && r.packet.Image() == images[0] && r.rest <= Concat(images[1..]))
  {
    hide Read, Accepts;
    if images == [] {
      NothingIsRead(events, p, limit);
    } else {
      ImageIsReadWell(images[0], Concat(images[1..]), wire, events, p, limit);
      if Read(wire, events, p, false, limit).Got? {
        GotIsNext(images[0], Concat(images[1..]), wire, events, p, limit);
      }
    }
  }

  /** A receiver that stops at the first failure gets the images of a stream, in order, under any script. */
  lemma {:induction false} PrefixIsFramed(n: nat, images: seq<seq<byte>>, wire: seq<byte>, events: seq<Event>,
                                          p: Packet, limit: HeapLimit)
    requires forall i | 0 <= i < |images| :: Accepts(images[i])
    requires wire <= Concat(images)
    ensures var s := ReadMany(n, wire, events, p, limit); s.images <= images && s.sound
  {
    hide Read, Accepts, Concat;
    if n > 0 {
      var r := Read(wire, events, p, false, limit);
      NextIsFirst(images, wire, events, p, limit);
      if r.Got? {
        assert forall i | 0 <= i < |images[1..]| :: images[1..][i] == images[i + 1];
        PrefixIsFramed(n - 1, images[1..], r.rest, r.events, r.packet, limit);
        assert images == [images[0]] + images[1..];
      }
    }
  }

  lemma AcceptedIsLong(image: seq<byte>)
    requires Accepts(image)
    ensures |image| >= HEADER_LENGTH
  {
  }

  /** Whatever the network does: up to its first failed read a receiver gets the first packets sent, unchanged. */
  lemma OnlySentPacketsArrive(ps: seq<Packet>, sendEvents: seq<Event>, n: nat, readEvents: seq<Event>, p: Packet,
                              limit: HeapLimit)
    requires forall i | 0 <= i < |ps| :: ps[i].header[..4] == SYNC && !ps[i].frozen && |ps[i].payload| < MAX_LENGTH
    ensures var s := ReadMany(n, SendMany(Images(ps), sendEvents).out, readEvents, p, limit);
            s.images <= Images(ps) && s.sound
  {
    hide Accepts, ReadMany, SendMany;
    var images := Images(ps);
    SendManySendsAll(images, sendEvents);
    forall i | 0 <= i < |images|
      ensures Accepts(images[i])
    {
      FrozenIsAccepted(ps[i]);
    }
    PrefixIsFramed(n, images, SendMany(images, sendEvents).out, readEvents, p, limit);
  }

  // What the checksums catch.

  lemma NoJunkBeforeSync(junk: seq<byte>, image: seq<byte>, rest: seq<byte>, bad: seq<byte>, tail: seq<byte>)
    requires Junk(junk) && |image| >= HEADER_LENGTH && image[..4] == SYNC
    requires |bad| >= HEADER_LENGTH && bad[..4] == SYNC
    requires junk + image + rest == bad + tail
    ensures image + rest == bad + tail
  {
    BehindJunk(junk, image, rest);
    BehindJunk([], bad, tail);
    assert [] + bad + tail == bad + tail;
    JunkIsUnique(junk, image[4..] + rest, [], bad[4..] + tail);
    assert [] + image + rest == image + rest;
  }

  lemma SameStart(a: seq<byte>, x: seq<byte>, b: seq<byte>, y: seq<byte>)
    requires a + x == b + y && |a| >= HEADER_LENGTH && |b| >= HEADER_LENGTH
    ensures a[..32] == b[..32]
    ensures |a| == |b| ==> a == b
  {
    assert (a + x)[..32] == a[..32] && (b + y)[..32] == b[..32];
    assert (a + x)[..|a|] == a && (b + y)[..|b|] == b;
  }

  /**
   Where bytes starting with the sync word lie, only those bytes' header is taken, and the bytes if the length is
   right.
   */
  lemma GotFromSync(bad: seq<byte>, tail: seq<byte>, events: seq<Event>, p: Packet, closed: bool, limit: HeapLimit)
    requires |bad| >= HEADER_LENGTH && bad[..4] == SYNC
    requires !Read(bad + tail, events, p, closed, limit).Nothing?
    ensures bad[28..32] == HeaderSum(bad[..32])
    ensures var got, length := Read(bad + tail, events, p, closed, limit).Got?, Field(bad, PAYLOAD_LENGTH_POS, 4);
            && (got && length == |bad| - HEADER_LENGTH ==> Accepts(bad))
            && (!got ==> length >= WORD - HEADER_LENGTH)
  {
    hide Read, Crc32, WordBytes;
    var r := Read(bad + tail, events, p, closed, limit);
    var junk: seq<byte>, got: seq<byte>;
    if r.Got? {
      junk := ReadIsSound(bad + tail, events, p, closed, limit);
      got := r.packet.Image();
    } else {
      junk := WrapIsSound(bad + tail, events, p, closed, limit);
      got := r.header;
      assert got[..32] == got;
    }
    NoJunkBeforeSync(junk, got, r.rest, bad, tail);
    SameStart(got, r.rest, bad, tail);
    assert got[28..32] == got[..32][28..32] && bad[28..32] == bad[..32][28..32];
    assert got[20..24] == got[..32][20..24] && bad[20..24] == bad[..32][20..24];
  }

  lemma HeaderSumCatches(image: seq<byte>, bad: seq<byte>, i: nat, n: nat)
    requires |bad| == |image| >= HEADER_LENGTH && bad != image && bad[28..] == image[28..]
    requires n <= 32 && DifferWithin(image[..28], bad[..28], i, n)
    ensures HeaderSum(image[..32]) != HeaderSum(bad[..32])
  {
    hide Crc32, WordBytes, DifferWithin;
    assert image == image[..28] + image[28..] && bad == bad[..28] + bad[28..];
    BurstChangesCrc(image[..28], bad[..28], i, n);
    assert image[..32][..28] == image[..28] && bad[..32][..28] == bad[..28];
    if WordBytes(Crc32(image[..28])) == WordBytes(Crc32(bad[..28])) {
      WordBytesInjective(Crc32(image[..28]), Crc32(bad[..28]));
    }
  }

  /** A burst of up to 32 bits in the header behind the sync word is always refused, however the packet arrives. */
  lemma HeaderBurstIsRefused(image: seq<byte>, bad: seq<byte>, i: nat, n: nat, tail: seq<byte>,
                             events: seq<Event>, p: Packet, closed: bool, limit: HeapLimit)
    requires Accepts(image) && |bad| == |image| && bad != image
    requires bad[..4] == image[..4] && bad[28..] == image[28..]
    requires n <= 32 && DifferWithin(image[..28], bad[..28], i, n)
    ensures Read(bad + tail, events, p, closed, limit).Nothing?
  {
    hide Read, HeaderSum, DifferWithin;
    HeaderSumCatches(image, bad, i, n);
    assert bad[28..32] == bad[28..][..4] && image[28..32] == image[28..][..4];
    if !Read(bad + tail, events, p, closed, limit).Nothing? {
      GotFromSync(bad, tail, events, p, closed, limit);
    }
  }

  /** A burst of up to 32 bits in the payload is refused exactly when the packet carries a payload checksum. */
  lemma PayloadBurstIsRefusedIffChecked(image: seq<byte>, bad: seq<byte>, i: nat, n: nat)
    requires Accepts(image) && |bad| == |image| && bad != image
    requires bad[..32] == image[..32]
    requires n <= 32 && DifferWithin(image[32..], bad[32..], i, n)
    ensures Accepts(bad) <==> image[16..20] == NO_SUM
  {
    hide Crc32, WordBytes, DifferWithin;
    assert bad[16..20] == bad[..32][16..20] == image[16..20];
    assert bad[20..24] == bad[..32][20..24] == image[20..24];
    assert bad[28..32] == bad[..32][28..32] == image[28..32];
    assert bad[..4] == bad[..32][..4] == image[..4];
    assert image == image[..32] + image[32..] && bad == bad[..32] + bad[32..];
    BurstChangesCrc(image[32..], bad[32..], i, n);
    if Crc32(image[32..]) != Crc32(bad[32..]) && WordBytes(Crc32(image[32..])) == WordBytes(Crc32(bad[32..])) {
      WordBytesInjective(Crc32(image[32..]), Crc32(bad[32..]));
    }
  }

  /** What does not pass as an image is not delivered, however it arrives. */
  lemma UnacceptableIsRefused(bad: seq<byte>, tail: seq<byte>, events: seq<Event>, p: Packet, closed: bool,
                              limit: HeapLimit)
    requires |bad| >= HEADER_LENGTH && bad[..4] == SYNC && !Accepts(bad)
    requires Field(bad, PAYLOAD_LENGTH_POS, 4) == |bad| - HEADER_LENGTH
    ensures !Read(bad + tail, events, p, closed, limit).Got?
    ensures |bad| < WORD ==> Read(bad + tail, events, p, closed, limit).Nothing?
  {
    hide Read, Accepts;
    if !Read(bad + tail, events, p, closed, limit).Nothing? {
      GotFromSync(bad, tail, events, p, closed, limit);
    }
  }

  /**
   So a receiver takes a packet with a damaged payload exactly when its sender had switched the checksum off (or it
   was 0).
   */
  lemma DamagedPayloadIsReadIffUnchecked(image: seq<byte>, bad: seq<byte>, i: nat, n: nat, tail: seq<byte>,
                                         events: seq<Event>, p: Packet, closed: bool, limit: HeapLimit)
    requires Accepts(image) && |bad| == |image| && bad != image && bad[..32] == image[..32]
    requires n <= 32 && DifferWithin(image[32..], bad[32..], i, n)
    requires Fits(image, p, limit) && Benign(events) && |bad| <= Credit(events)
    ensures Read(bad + tail, events, p, closed, limit).Got? <==> image[16..20] == NO_SUM
  {
    hide Read, Crc32, WordBytes, DifferWithin, HeaderSum;
    PayloadBurstIsRefusedIffChecked(image, bad, i, n);
    if Accepts(bad) {
      assert [] + bad + tail == bad + tail;
      ReadIsComplete([], bad, tail, events, p, closed, limit);
    } else {
      assert bad[20..24] == bad[..32][20..24] == image[20..24];
      assert bad[..4] == bad[..32][..4] == image[..4];
      UnacceptableIsRefused(bad, tail, events, p, closed, limit);
    }
  }

  /** Only the word 0 is stored as zeros. */
  lemma NoSumIff(c: bv32)
    ensures WordBytes(c) == NO_SUM <==> c == 0
  {
    assert WordBytes(0) == NO_SUM;
    if WordBytes(c) == NO_SUM {
      WordBytesInjective(c, 0);
    }
  }

  /** So a damaged payload is delivered exactly if its sender switched the checksum off, or it happened to be 0. */
  lemma SentPayloadIsGuardedIff(sent: Packet, damaged: seq<byte>, i: nat, n: nat, tail: seq<byte>,
                                events: seq<Event>, p: Packet, closed: bool, limit: HeapLimit)
    requires sent.header[..4] == SYNC && !sent.frozen && 0 < |sent.payload| < MAX_LENGTH
    requires |damaged| == |sent.payload| && damaged != sent.payload
    requires n <= 32 && DifferWithin(sent.payload, damaged, i, n)
    requires p.Clear().CanHold(|sent.payload|, limit) && Benign(events)
    requires HEADER_LENGTH + |damaged| <= Credit(events)
    ensures Read(sent.Freeze().header + damaged + tail, events, p, closed, limit).Got?
       <==> !sent.checked || Crc32(sent.payload) == 0
  {
    hide Read, Crc32, WordBytes, DifferWithin, Accepts, Packet.Freeze, Packet.CanHold, Benign, Credit;
    var image, bad := sent.Freeze().Image(), sent.Freeze().header + damaged;
    FrozenFits(sent, p, limit);
    FrozenFields(sent);
    ImageParts(sent.Freeze().header, damaged);
    ImageParts(sent.Freeze().header, sent.payload);
    NoSumIff(Crc32(sent.payload));
    DamagedPayloadIsReadIffUnchecked(image, bad, i, n, tail, events, p, closed, limit);
  }

  /**
   What is put after sealing is sent but not framed: the receiver gets the packet as it was sealed, and the rest
   stays in its way.
   */
  lemma LatePutIsFramedIffEmpty(sent: Packet, late: seq<byte>, tail: seq<byte>, events: seq<Event>, p: Packet,
                                limit: HeapLimit)
    requires sent.header[..4] == SYNC && !sent.frozen && |sent.payload| < MAX_LENGTH
    requires sent.payload == [] || p.Clear().CanHold(|sent.payload|, limit)
    requires Benign(events) && |sent.Freeze().Image()| <= Credit(events)
    ensures var q := sent.Freeze().Append(late);
            var r := Read(q.Freeze().Image() + tail, events, p, false, limit);
            && r.Got? && r.packet.payload == sent.payload && r.rest == late + tail
            && (r.packet.Image() == q.Image() <==> late == [])
  {
    hide Read, Accepts, Fits, Sealed;
    FrozenFits(sent, p, limit);
    var image, q := sent.Freeze().Image(), sent.Freeze().Append(late);
    assert q.Freeze().Image() == image + late;
    assert (image + late) + tail == [] + image + (late + tail);
    ReadIsComplete([], image, late + tail, events, p, false, limit);
    var r := Read(q.Freeze().Image() + tail, events, p, false, limit);
    assert r.packet.payload == r.packet.Image()[32..];
  }

  // Relaying.

  /** Sealing an image again changes nothing, except for a checksum stored with an empty payload. */
  lemma SealedAgainIff(header: Header, payload: seq<byte>, checked: bool)
    requires Accepts(header + payload)
    requires payload != [] ==> checked == (header[16..20] != NO_SUM)
    ensures Sealed(header, payload, checked) == header <==> payload != [] || header[16..20] == NO_SUM
  {
    hide Crc32, WordBytes, BigEndian, Value, Sealed, HeaderSum;
    var h := Sealed(header, payload, checked);
    SealedFields(header, payload, checked);
    ImageParts(header, payload);
    BigEndianOfValue(header[20..24]);
    if h[16..20] == header[16..20] {
      assert h[..28] == h[..16] + h[16..20] + h[20..24] + h[24..28];
      assert header[..28] == header[..16] + header[16..20] + header[20..24] + header[24..28];
      SameSum(h, header);
      HeaderParts(h, header);
    }
  }

  /** Freezing what was read again changes nothing, except for a checksum stored with an empty payload. */
  lemma RelayIsIdentityIff(input: seq<byte>, events: seq<Event>, p: Packet, closed: bool, limit: HeapLimit)
    requires Read(input, events, p, closed, limit).Got?
    ensures var q := Read(input, events, p, closed, limit).packet;
            q.Freeze() == q.(frozen := true) <==> p.frozen || q.payload != [] || q.header[16..20] == NO_SUM
  {
    hide Read, Accepts, Sealed;
    var junk := ReadIsSound(input, events, p, closed, limit);
    var q := Read(input, events, p, closed, limit).packet;
    SealedAgainIff(q.header, q.payload, q.checked);
  }

  /** So a frozen packet goes through a relay unchanged. */
  lemma FrozenPacketRelaysUnchanged(sent: Packet, tail: seq<byte>, events: seq<Event>, p: Packet, limit: HeapLimit)
    requires sent.header[..4] == SYNC && !sent.frozen && |sent.payload| < MAX_LENGTH
    requires Read(sent.Freeze().Image() + tail, events, p, false, limit).Got?
    ensures Read(sent.Freeze().Image() + tail, events, p, false, limit).packet.Freeze().Image() == sent.Freeze().Image()
  {
    hide Read, Packet.Freeze;
    var image := sent.Freeze().Image();
    FrozenIsAccepted(sent);
    var junk := ReadIsSound(image + tail, events, p, false, limit);
    var r := Read(image + tail, events, p, false, limit);
    assert [] + image + tail == image + tail;
    OfferIsUnique(junk, r.packet.Image(), r.rest, [], image, tail);
    ImageParts(r.packet.header, r.packet.payload);
    RelayIsIdentityIff(image + tail, events, p, false, limit);
  }

  /** A relay: its packet object, what follows on its stream, and what its socket answers. */
  datatype Hop = Hop(packet: Packet, tail: seq<byte>, events: seq<Event>, limit: HeapLimit)

  /** An image read, frozen and sent on by one relay after the other. */
  function Relayed(image: seq<byte>, hops: seq<Hop>): Option<seq<byte>>
    decreases |hops|
  {
    if hops == [] then Some(image)
    else
      var r := Read(image + hops[0].tail, hops[0].events, hops[0].packet, false, hops[0].limit);
      if r.Got? then Relayed(r.packet.Freeze().Image(), hops[1..]) else None
  }

  /** A frozen packet goes through any number of relays unchanged, if it goes through. */
  lemma {:induction false} RelaysKeepFrozenPacket(sent: Packet, hops: seq<Hop>)
    requires sent.header[..4] == SYNC && !sent.frozen && |sent.payload| < MAX_LENGTH
    ensures var r := Relayed(sent.Freeze().Image(), hops); r.Some? ==> r.value == sent.Freeze().Image()
    decreases |hops|
  {
    hide Read, Packet.Freeze, Packet.Image;
    var image := sent.Freeze().Image();
    if hops != [] && Read(image + hops[0].tail, hops[0].events, hops[0].packet, false, hops[0].limit).Got? {
      FrozenPacketRelaysUnchanged(sent, hops[0].tail, hops[0].events, hops[0].packet, hops[0].limit);
      RelaysKeepFrozenPacket(sent, hops[1..]);
    }
  }

  /** And it does go through relays that have room for it, over networks without time-outs and errors. */
  lemma {:induction false} RelaysPassFrozenPacket(sent: Packet, hops: seq<Hop>)
    requires sent.header[..4] == SYNC && !sent.frozen && |sent.payload| < MAX_LENGTH
    requires forall hop | hop in hops :: Passes(sent, hop)
    ensures Relayed(sent.Freeze().Image(), hops) == Some(sent.Freeze().Image())
    decreases |hops|
  {
    hide Read, Packet.Freeze, Packet.Image, Passes;
    if hops != [] {
      HopPasses(sent, hops[0]);
      RelaysPassFrozenPacket(sent, hops[1..]);
    }
  }

  ghost predicate Passes(sent: Packet, hop: Hop) {
    && (sent.payload == [] || hop.packet.Clear().CanHold(|sent.payload|, hop.limit))
    && Benign(hop.events) && HEADER_LENGTH + |sent.payload| <= Credit(hop.events)
  }

  lemma HopPasses(sent: Packet, hop: Hop)
    requires sent.header[..4] == SYNC && !sent.frozen && |sent.payload| < MAX_LENGTH && Passes(sent, hop)
    ensures var image := sent.Freeze().Image();
            var r := Read(image + hop.tail, hop.events, hop.packet, false, hop.limit);
            r.Got? && r.packet.Freeze().Image() == image
  {
    FrozenFits(sent, hop.packet, hop.limit);
    FrozenLength(sent);
    hide Read, Packet.Freeze, Packet.Image, Accepts, Fits, Packet.CanHold, Benign, Credit;
    HopDelivers(sent.Freeze().Image(), hop);
    FrozenPacketRelaysUnchanged(sent, hop.tail, hop.events, hop.packet, hop.limit);
  }

  lemma HopDelivers(image: seq<byte>, hop: Hop)
    requires Accepts(image) && Fits(image, hop.packet, hop.limit)
    requires Benign(hop.events) && |image| <= Credit(hop.events)
    ensures Read(image + hop.tail, hop.events, hop.packet, false, hop.limit).Got?
  {
    hide Read, Accepts, Fits, Benign, Credit;
    assert [] + image + hop.tail == image + hop.tail;
    ReadIsComplete([], image, hop.tail, hop.events, hop.packet, false, hop.limit);
  }

  lemma FrozenLength(sent: Packet)
    ensures |sent.Freeze().Image()| == HEADER_LENGTH + |sent.payload|
  {
  }
}
