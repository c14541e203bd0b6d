/**
 What a receiver gets that reads on after a failure, as the session's and the handler's loops do: a failed read may
 have taken part of a packet, and the next one starts to look for a packet there.
 */
module Receivers {
  import opened Bytes
  import opened Crc
  import opened Framing
  import opened Packets
  import opened Wire

  /**
   Reads one after the other until the connection is closed, with the packet objects `ps`: a new one for every read,
   or the same one as the read before has left it.
   */
  function ReadOn(ps: seq<Packet>, input: seq<byte>, events: seq<Event>, limit: HeapLimit): Stream
    decreases |ps|
  {
    if ps == [] then Stream([], true, input, events)
    else
      var r := Read(input, events, ps[0], false, limit);
      if r.Got? then
        var s := ReadOn(ps[1..], r.rest, r.events, limit);
        s.(images := [r.packet.Image()] + s.images)
      else if r.Nothing? && !r.closed then ReadOn(ps[1..], r.rest, r.events, limit)
      else Stream([], r.Nothing?, r.rest, r.events)
  }

  /** No failed read takes anything off the stream. */
  predicate Clean(ps: seq<Packet>, input: seq<byte>, events: seq<Event>, limit: HeapLimit)
    decreases |ps|
  {
    ps == [] ||
    var r := Read(input, events, ps[0], false, limit);
    && (r.Nothing? ==> r.rest == input)
    && (r.Got? || (r.Nothing? && !r.closed) ==> Clean(ps[1..], r.rest, r.events, limit))
  }

  /** Such are reads for which nothing comes in time. */
  lemma IdleReadIsClean(input: seq<byte>, events: seq<Event>, p: Packet, limit: HeapLimit)
    requires !PollReady(events)
    ensures Read(input, events, p, false, limit) == Nothing(false, input, AfterPoll(events))
  {
  }

  /**
   As long as no failed read takes anything, the receiver gets the images of the stream, in order, and nothing else.
   */
  lemma {:induction false} CleanReceiverIsFramed(ps: seq<Packet>, images: seq<seq<byte>>, wire: seq<byte>,
                                                 events: seq<Event>, limit: HeapLimit)
    requires forall i | 0 <= i < |images| :: Accepts(images[i])
    requires wire <= Concat(images) && Clean(ps, wire, events, limit)
    ensures var s := ReadOn(ps, wire, events, limit); s.images <= images && s.sound
    decreases |ps|
  {
    hide Read, Accepts, Concat;
    if ps != [] {
      var r := Read(wire, events, ps[0], false, limit);
      NextIsFirst(images, wire, events, ps[0], limit);
      if r.Got? {
        assert forall i | 0 <= i < |images[1..]| :: images[1..][i] == images[i + 1];
        CleanReceiverIsFramed(ps[1..], images[1..], r.rest, r.events, limit);
        assert images == [images[0]] + images[1..];
      } else if !r.closed {
        CleanReceiverIsFramed(ps[1..], images, r.rest, r.events, limit);
      }
    }
  }

  /**
   From sender to receiver, over any network: only packets that were sent arrive, if no failed read takes anything.
   */
  lemma CleanReceiverGetsSentPackets(sent: seq<Packet>, sendEvents: seq<Event>, ps: seq<Packet>, readEvents: seq<Event>,
                                     limit: HeapLimit)
    requires forall i | 0 <= i < |sent| ::
               sent[i].header[..4] == SYNC && !sent[i].frozen && |sent[i].payload| < MAX_LENGTH
    requires Clean(ps, SendMany(Images(sent), sendEvents).out, readEvents, limit)
    ensures var s := ReadOn(ps, SendMany(Images(sent), sendEvents).out, readEvents, limit);
            s.images <= Images(sent) && s.sound
  {
    hide Accepts, ReadOn, Clean, SendMany;
    SendManySendsAll(Images(sent), sendEvents);
    forall i | 0 <= i < |sent|
      ensures Accepts(Images(sent)[i])
    {
      FrozenIsAccepted(sent[i]);
    }
    CleanReceiverIsFramed(ps, Images(sent), SendMany(Images(sent), sendEvents).out, readEvents, limit);
  }

  // Where a failed read leaves the stream.

  lemma HeadOfImage(image: seq<byte>, tail: seq<byte>, wire: seq<byte>, n: nat)
    requires wire <= image + tail && n <= |wire| && n <= |image|
    ensures wire[..n] == image[..n] && wire[n..] <= image[n..] + tail
  {
    var all := image + tail;
    assert wire[..n] == all[..n] == image[..n];
    assert all[n..] == image[n..] + tail;
    assert wire[n..] == all[n..][..|wire| - n];
  }

  lemma FailedPayloadStays(header: Header, payload: seq<byte>, tail: seq<byte>, wire: seq<byte>, events: seq<Event>,
                           p: Packet, closed: bool, limit: HeapLimit)
    requires Accepts(header + payload) && p == p.Clear() && wire <= payload + tail
    requires ReadPayload(header, wire, events, p, closed, limit).Nothing?
    ensures var r := ReadPayload(header, wire, events, p, closed, limit);
            exists k :: 0 <= k <= |wire| && k < |payload| && r.rest == wire[k..]
  {
    hide Crc32, WordBytes, HeaderSum, Receive;
    ImageParts(header, payload);
    assert Field(header, PAYLOAD_LENGTH_POS, 4) == |payload|;
    var r := ReadPayload(header, wire, events, p, closed, limit);
    var body := Receive(wire, events, |payload|);
    ReceiveSplits(wire, events, |payload|);
    if r.rest == wire {
      assert payload != [] && r.rest == wire[0..];
    } else {
      var k := |body.got|;
      assert wire[..k] == body.got && r.rest == wire[k..];
      assert k == |payload| ==> payload[..k] == payload;
      if k == |payload| {
        HeadOfImage(payload, tail, wire, k);
      }
    }
  }

  lemma HuntAtImage(image: seq<byte>, tail: seq<byte>, wire: seq<byte>, events: seq<Event>)
    requires |image| >= HEADER_LENGTH && image[..4] == SYNC && wire <= image + tail
    ensures var sync := Hunt(wire, events);
            if sync.rc == 0 then 4 <= |wire| && sync.rest == wire[4..]
            else exists k :: 0 <= k <= |wire| && k < 4 && sync.rest == wire[k..]
  {
    HuntStep(wire, events);
    ReceiveSplits(wire, events, 4);
    hide Hunt, Receive;
    var first := Receive(wire, events, 4);
    var k := |first.got|;
    assert wire[..k] == first.got && wire[k..] == first.rest;
    if first.rc == 0 {
      HeadOfImage(image, tail, wire, 4);
    }
  }

  /** A failed read of a packet takes less than the packet. */
  lemma FailedReadStaysInPacket(image: seq<byte>, tail: seq<byte>, wire: seq<byte>, events: seq<Event>, p: Packet,
                                closed: bool, limit: HeapLimit)
    requires Accepts(image) && wire <= image + tail
    requires Read(wire, events, p, closed, limit).Nothing?
    ensures var r := Read(wire, events, p, closed, limit);
            exists k :: 0 <= k <= |wire| && k < |image| && r.rest == wire[k..]
  {
    hide ReadPayload, Receive, Hunt, Crc32, WordBytes, HeaderSum;
    var r := Read(wire, events, p, closed, limit);
    if !PollReady(events) {
      assert r.rest == wire[0..];
      return;
    }
    HuntAtImage(image, tail, wire, events);
    var sync := Hunt(wire, events);
    if sync.rc != 0 {
      return;
    }
    HeadOfImage(image, tail, wire, 4);
    ReceiveSplits(sync.rest, sync.events, HEADER_LENGTH - 4);
    var head := Receive(sync.rest, sync.events, HEADER_LENGTH - 4);
    var n := |head.got|;
    assert sync.rest[n..] == head.rest && wire[4..][n..] == wire[4 + n..];
    if head.rc != 0 {
      assert r.rest == wire[4 + n..];
      return;
    }
    HeadOfImage(image, tail, wire, HEADER_LENGTH);
    var header: Header := image[..32];
    assert SYNC + head.got == header by {
      assert head.got == wire[4..][..28] == wire[4..32];
      assert wire[..32] == wire[..4] + wire[4..32];
    }
    HeaderApart(image);
    FailedPayloadStays(header, image[32..], tail, wire[32..], head.events, p.Clear(), closed, limit);
    var k :| 0 <= k <= |wire[32..]| && k < |image[32..]| && r.rest == wire[32..][k..];
    assert wire[32..][k..] == wire[32 + k..];
  }

  lemma {:induction false} LongerThanFirst(images: seq<seq<byte>>, j: nat)
    requires 1 <= j <= |images|
    ensures |Concat(images[..j])| >= |images[0]|
  {
    assert images[..j][0] == images[0];
  }

  /** So the stream still starts with a packet if and only if nothing was taken. */
  lemma FailedReadKeepsBoundaryIff(images: seq<seq<byte>>, wire: seq<byte>, events: seq<Event>, p: Packet,
                                   closed: bool, limit: HeapLimit) returns (taken: nat)
    requires images != [] && Accepts(images[0]) && wire <= Concat(images)
    requires Read(wire, events, p, closed, limit).Nothing?
    ensures var r := Read(wire, events, p, closed, limit);
            && taken <= |wire| && r.rest == wire[taken..]
            && ((exists j :: 0 <= j <= |images| && |Concat(images[..j])| == taken) <==> r.rest == wire)
  {
    hide Read, Accepts;
    FailedReadStaysInPacket(images[0], Concat(images[1..]), wire, events, p, closed, limit);
    var r := Read(wire, events, p, closed, limit);
    taken :| 0 <= taken <= |wire| && taken < |images[0]| && r.rest == wire[taken..];
    assert |r.rest| == |wire| - taken;
    if taken == 0 {
      assert wire[0..] == wire && |Concat(images[..0])| == taken;
    } else if j :| 0 <= j <= |images| && |Concat(images[..j])| == taken {
      if j > 0 {
        LongerThanFirst(images, j);
      }
    }
  }

  // Packets that were never sent.

  lemma ReceiveAtOnce(input: seq<byte>, events: seq<Event>, want: nat)
    requires 0 < want <= |input| && events != [] && events[0] == Ready(want)
    ensures Receive(input, events, want) == Received(0, input[..want], input[want..], events[1..])
  {
    assert input[..want] + [] == input[..want];
  }

  /** The header of an image comes at once; how the read goes on depends on its payload. */
  lemma HeaderComes(image: seq<byte>, rest: seq<byte>, events: seq<Event>, p: Packet, limit: HeapLimit)
    requires Accepts(image)
    ensures Read(image + rest, [Ready(4), Ready(28)] + events, p, false, limit)
         == ReadPayload(image[..32], image[32..] + rest, events, p.Clear(), false, limit)
  {
    hide ReadPayload, Receive, HeaderSum, Crc32, WordBytes;
    var input, script := image + rest, [Ready(4), Ready(28)] + events;
    TailApart(image, rest);
    HeaderApart(image);
    var tail := image[..32][4..] + (image[32..] + rest);
    assert input[..4] == SYNC && input[4..] == tail;
    ReceiveAtOnce(input, script, 4);
    assert script[1..] == [Ready(28)] + events && script[1..][1..] == events;
    HuntStep(input, script);
    ReceiveAtOnce(tail, script[1..], 28);
  }

  /** A packet whose payload starts with the image of a packet without payload. */
  predicate Wraps(sent: Packet, inner: Packet, more: seq<byte>) {
    && sent.header[..4] == SYNC && !sent.frozen && |sent.payload| < MAX_LENGTH
    && inner.header[..4] == SYNC && !inner.frozen && inner.payload == []
    && sent.payload == inner.Freeze().Image() + more
  }

  lemma InnerIsRead(inner: Packet, rest: seq<byte>, events: seq<Event>, p: Packet, limit: HeapLimit)
    requires inner.header[..4] == SYNC && !inner.frozen && inner.payload == []
    ensures var image := inner.Freeze().Image();
            var r := Read(image + rest, [Ready(4), Ready(28)] + events, p, false, limit);
            r.Got? && r.packet.Image() == image && r.rest == rest && r.events == events
  {
    FrozenIsAccepted(inner);
    var image := inner.Freeze().Image();
    HeaderComes(image, rest, events, p, limit);
    hide Read, HeaderSum, Crc32, WordBytes, Packet.Freeze;
    assert image[..32] == image && image[32..] + rest == rest;
    assert image + [] == image;
  }

  lemma HeaderThenTimeOut(image: seq<byte>, payload: seq<byte>, p: Packet, limit: HeapLimit)
    requires Accepts(image) && payload == image[32..] != [] && p.Clear().CanHold(|payload|, limit)
    ensures Read(image, [Ready(4), Ready(28), Timeout, Ready(4), Ready(28)], p, false, limit)
         == Nothing(false, payload, [Ready(4), Ready(28)])
  {
    HeaderComes(image, [], [Timeout, Ready(4), Ready(28)], p, limit);
    hide Crc32, WordBytes, HeaderSum, Read;
    assert payload + [] == payload && image + [] == image;
    assert [Ready(4), Ready(28)] + [Timeout, Ready(4), Ready(28)]
        == [Ready(4), Ready(28), Timeout, Ready(4), Ready(28)];
    assert [Timeout, Ready(4), Ready(28)][1..] == [Ready(4), Ready(28)];
    assert image[28..32] == image[..32][28..32] && image[20..24] == image[..32][20..24];
  }

  lemma HeaderWithoutRoom(image: seq<byte>, payload: seq<byte>, p: Packet, limit: HeapLimit)
    requires Accepts(image) && payload == image[32..] != [] && !p.Clear().CanHold(|payload|, limit)
    ensures Read(image, [Ready(4), Ready(28), Ready(4), Ready(28)], p, false, limit)
         == Nothing(false, payload, [Ready(4), Ready(28)])
  {
    HeaderComes(image, [], [Ready(4), Ready(28)], p, limit);
    hide Crc32, WordBytes, HeaderSum, Read;
    assert payload + [] == payload && image + [] == image;
    assert [Ready(4), Ready(28)] + [Ready(4), Ready(28)] == [Ready(4), Ready(28), Ready(4), Ready(28)];
    assert image[28..32] == image[..32][28..32] && image[20..24] == image[..32][20..24];
  }

  /** A read that leaves an inner packet on the stream, and the next one, which takes it. */
  lemma FailureThenInner(inner: Packet, more: seq<byte>, wire: seq<byte>, script: seq<Event>, p: Packet, q: Packet,
                         limit: HeapLimit)
    requires inner.header[..4] == SYNC && !inner.frozen && inner.payload == []
    requires Read(wire, script, p, false, limit) == Nothing(false, inner.Freeze().Image() + more, [Ready(4), Ready(28)])
    ensures ReadOn([p, q], wire, script, limit) == Stream([inner.Freeze().Image()], true, more, [])
  {
    hide Read, Packet.Freeze, Packet.Image;
    var inside, rest := inner.Freeze().Image(), inner.Freeze().Image() + more;
    InnerIsRead(inner, more, [], q, limit);
    assert [Ready(4), Ready(28)] + [] == [Ready(4), Ready(28)];
    assert [p, q][1..] == [q] && [q][1..] == [];
    assert ReadOn([q], rest, [Ready(4), Ready(28)], limit) == Stream([inside] + [], true, more, []);
  }

  lemma Unwrapped(sent: Packet, inner: Packet, more: seq<byte>)
    requires Wraps(sent, inner, more)
    ensures var image := sent.Freeze().Image();
            && Accepts(image) && image[32..] == inner.Freeze().Image() + more != []
            && inner.Freeze().Image() != image && |inner.Freeze().Image()| == HEADER_LENGTH
  {
    FrozenIsAccepted(sent);
    FrozenLength(sent);
    FrozenLength(inner);
  }

  /** A packet that was never sent is what the receiver gets of one that was, if the time is out behind the header. */
  lemma TimeOutInjects(sent: Packet, inner: Packet, p: Packet, q: Packet, limit: HeapLimit)
    requires Wraps(sent, inner, []) && p.Clear().CanHold(HEADER_LENGTH, limit)
    ensures var script := [Ready(4), Ready(28), Timeout, Ready(4), Ready(28)];
            && ReadOn([p, q], sent.Freeze().Image(), script, limit) == Stream([inner.Freeze().Image()], true, [], [])
            && inner.Freeze().Image() != sent.Freeze().Image()
  {
    hide Read, Packet.Freeze, Packet.Image, Accepts, Packet.CanHold, ReadOn, Wraps;
    Unwrapped(sent, inner, []);
    Parts(sent, inner, []);
    var inside := inner.Freeze().Image();
    assert inside + [] == inside;
    HeaderThenTimeOut(sent.Freeze().Image(), inside + [], p, limit);
    var script := [Ready(4), Ready(28), Timeout, Ready(4), Ready(28)];
    FailureThenInner(inner, [], sent.Freeze().Image(), script, p, q, limit);
  }

  lemma Parts(sent: Packet, inner: Packet, more: seq<byte>)
    requires Wraps(sent, inner, more)
    ensures inner.header[..4] == SYNC && !inner.frozen && inner.payload == []
    ensures sent.payload == inner.Freeze().Image() + more
  {
  }

  /** The same happens without any time-out if there is no memory for the payload. */
  lemma LackOfRoomInjects(sent: Packet, inner: Packet, more: seq<byte>, p: Packet, q: Packet, limit: HeapLimit)
    requires Wraps(sent, inner, more) && !p.Clear().CanHold(|sent.payload|, limit)
    ensures var script := [Ready(4), Ready(28), Ready(4), Ready(28)];
            && ReadOn([p, q], sent.Freeze().Image(), script, limit) == Stream([inner.Freeze().Image()], true, more, [])
            && inner.Freeze().Image() != sent.Freeze().Image()
  {
    hide Read, Packet.Freeze, Packet.Image, Accepts, Packet.CanHold, ReadOn, Wraps;
    Unwrapped(sent, inner, more);
    Parts(sent, inner, more);
    HeaderWithoutRoom(sent.Freeze().Image(), inner.Freeze().Image() + more, p, limit);
    FailureThenInner(inner, more, sent.Freeze().Image(), [Ready(4), Ready(28), Ready(4), Ready(28)], p, q, limit);
  }
}
