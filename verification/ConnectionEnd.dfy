/** When a failed read reports that the connection is closed: what it was looking for, and what it met. */
module ConnectionEnds {
  import opened Bytes
  import opened Crc
  import opened Framing
  import opened Packets
  import opened Wire

  /** One of the whole words is the sync word. */
  predicate HasSync(taken: seq<byte>) {
    |taken| >= 4 && (taken[..4] == SYNC || HasSync(taken[4..]))
  }

  lemma {:induction false} HasSyncAfterJunk(junk: seq<byte>, x: seq<byte>)
    requires Junk(junk)
    ensures HasSync(junk + SYNC + x)
    decreases |junk|
  {
    var taken := junk + SYNC + x;
    FirstWord(junk, x);
    if junk != [] {
      assert taken[4..] == junk[4..] + SYNC + x;
      HasSyncAfterJunk(junk[4..], x);
    }
  }

  lemma {:induction false} JunkBeforeSync(taken: seq<byte>) returns (junk: seq<byte>, x: seq<byte>)
    requires HasSync(taken)
    ensures Junk(junk) && taken == junk + SYNC + x
  {
    if taken[..4] == SYNC {
      junk, x := [], taken[4..];
    } else {
      junk, x := JunkBeforeSync(taken[4..]);
      junk := taken[..4] + junk;
      assert junk[..4] == taken[..4] && junk[4..] + SYNC + x == taken[4..];
    }
  }

  lemma HasSyncIff(taken: seq<byte>)
    ensures HasSync(taken) <==> exists junk, x :: Junk(junk) && taken == junk + SYNC + x
  {
    if HasSync(taken) {
      var junk, x := JunkBeforeSync(taken);
    }
    if junk, x :| Junk(junk) && taken == junk + SYNC + x {
      HasSyncAfterJunk(junk, x);
    }
  }

  lemma {:induction false} HasSyncStill(taken: seq<byte>, more: seq<byte>)
    requires HasSync(taken)
    ensures HasSync(taken + more)
  {
    assert (taken + more)[..4] == taken[..4];
    if taken[..4] != SYNC {
      assert (taken + more)[4..] == taken[4..] + more;
      HasSyncStill(taken[4..], more);
    }
  }

  lemma UsedTwice(events: seq<Event>, mid: seq<Event>, rest: seq<Event>, first: int, second: int)
    requires Used(events, mid, first) && first != ECONNRESET && Used(mid, rest, second)
    ensures Used(events, rest, second)
  {
  }

  lemma {:induction false} HuntUsed(input: seq<byte>, events: seq<Event>)
    ensures var h := Hunt(input, events); Used(events, h.events, h.rc)
    decreases |input|
  {
    hide Used, Receive;
    HuntStep(input, events);
    ReceiveSplits(input, events, 4);
    ReceiveUsed(input, events, 4);
    var r := Receive(input, events, 4);
    if r.rc == 0 && r.got != SYNC {
      HuntUsed(r.rest, r.events);
      UsedTwice(events, r.events, Hunt(r.rest, r.events).events, 0, Hunt(r.rest, r.events).rc);
    }
  }

  /** The synchronisation loop succeeds if and only if it takes the sync word off the stream. */
  lemma {:induction false} HuntTakes(input: seq<byte>, events: seq<Event>) returns (taken: seq<byte>)
    ensures var h := Hunt(input, events); input == taken + h.rest && (h.rc == 0 <==> HasSync(taken))
    decreases |input|
  {
    hide Receive;
    HuntStep(input, events);
    ReceiveSplits(input, events, 4);
    var r := Receive(input, events, 4);
    taken := r.got;
    if r.rc == 0 && r.got != SYNC {
      var more := HuntTakes(r.rest, r.events);
      taken := r.got + more;
      assert taken[..4] == r.got && taken[4..] == more;
    }
  }

  /** What a call has left of the stream and of the script are their last parts. */
  predicate Leaves(input: seq<byte>, events: seq<Event>, rest: seq<byte>, later: seq<Event>) {
    && |rest| <= |input| && rest == input[|input| - |rest|..]
    && |later| <= |events| && later == events[|events| - |later|..]
  }

  lemma LeavesTwice(input: seq<byte>, events: seq<Event>, mid: seq<byte>, between: seq<Event>, rest: seq<byte>,
                    later: seq<Event>)
    requires Leaves(input, events, mid, between) && Leaves(mid, between, rest, later)
    ensures Leaves(input, events, rest, later)
    ensures HasSync(input[..|input| - |mid|]) ==> HasSync(input[..|input| - |rest|])
  {
    var first, second := input[..|input| - |mid|], mid[..|mid| - |rest|];
    assert input[..|input| - |rest|] == first + second;
    if HasSync(first) {
      HasSyncStill(first, second);
    }
  }

  lemma ReceiveLeaves(input: seq<byte>, events: seq<Event>, want: nat)
    ensures var r := Receive(input, events, want); Leaves(input, events, r.rest, r.events)
  {
    hide Receive;
    ReceiveSplits(input, events, want);
    ReceiveUsed(input, events, want);
  }

  lemma PayloadLeaves(header: Header, input: seq<byte>, events: seq<Event>, p: Packet, closed: bool, limit: HeapLimit)
    ensures var r := ReadPayload(header, input, events, p, closed, limit);
            Leaves(input, events, r.rest, r.events) && (r.Nothing? ==> r.closed == closed)
  {
    hide Receive, HeaderSum;
    ReceiveLeaves(input, events, Field(header, PAYLOAD_LENGTH_POS, 4));
  }

  lemma HuntLeaves(input: seq<byte>, events: seq<Event>)
    ensures var h := Hunt(input, events);
            && Leaves(input, events, h.rest, h.events)
            && (h.rc == 0 <==> HasSync(input[..|input| - |h.rest|]))
            && (h.rc == ECONNRESET <==> |h.events| < |events| && SaysGone(events[|events| - |h.events| - 1]))
  {
    hide Hunt;
    var taken := HuntTakes(input, events);
    HuntUsed(input, events);
    assert taken == input[..|input| - |Hunt(input, events).rest|];
  }

  lemma PollLeaves(input: seq<byte>, events: seq<Event>)
    ensures Leaves(input, events, input, AfterPoll(events))
  {
  }

  /**
   A failed read says that the connection is closed if and only if it was still looking for a packet and the last
   answer of the socket was that the peer is gone. Whatever happens after the sync word, a loss too, does not say so.
   */
  lemma ClosedIff(input: seq<byte>, events: seq<Event>, p: Packet, closed: bool, limit: HeapLimit)
    requires Read(input, events, p, closed, limit).Nothing?
    ensures var r := Read(input, events, p, closed, limit);
            && Leaves(input, events, r.rest, r.events)
            && r.closed == if PollReady(events) && !HasSync(input[..|input| - |r.rest|])
                           then |r.events| < |events| && SaysGone(events[|events| - |r.events| - 1])
                           else closed
  {
    hide ReadPayload, Receive, Hunt, HasSync, SaysGone, Leaves;
    var r := Read(input, events, p, closed, limit);
    if !PollReady(events) {
      PollLeaves(input, events);
    } else {
      var sync := Hunt(input, events);
      HuntLeaves(input, events);
      if sync.rc == 0 {
        ReceiveSplits(sync.rest, sync.events, HEADER_LENGTH - 4);
        ReceiveLeaves(sync.rest, sync.events, HEADER_LENGTH - 4);
        var head := Receive(sync.rest, sync.events, HEADER_LENGTH - 4);
        LeavesTwice(input, events, sync.rest, sync.events, head.rest, head.events);
        if head.rc == 0 {
          PayloadLeaves(SYNC + head.got, head.rest, head.events, p.Clear(), closed, limit);
          LeavesTwice(input, events, head.rest, head.events, r.rest, r.events);
        }
      }
    }
  }

  /** So time-outs and other errors alone never close a connection, however many there are. */
  lemma OnlyGoneCloses(input: seq<byte>, events: seq<Event>, p: Packet, limit: HeapLimit)
    requires forall e | e in events :: !SaysGone(e)
    requires Read(input, events, p, false, limit).Nothing?
    ensures !Read(input, events, p, false, limit).closed
  {
    hide Read;
    ClosedIff(input, events, p, false, limit);
  }

  /** And a peer that is found to be gone at once closes it, whatever has come from it. */
  lemma GoneAtOnceCloses(input: seq<byte>, events: seq<Event>, p: Packet, closed: bool, limit: HeapLimit)
    requires events != [] && SaysGone(events[0])
    ensures Read(input, events, p, closed, limit) == Nothing(true, input, events[1..])
  {
    HuntStep(input, events);
  }

  // How far a packet that is refused is consumed.

  lemma PayloadIsRefused(header: Header, rest: seq<byte>, events: seq<Event>, p: Packet, closed: bool, limit: HeapLimit)
    requires p == p.Clear() && Benign(events)
    ensures var n, r := Field(header, PAYLOAD_LENGTH_POS, 4), ReadPayload(header, rest, events, p, closed, limit);
            && (header[28..32] != HeaderSum(header) ==> r == Nothing(closed, rest, events))
            && (0 < n < WORD - HEADER_LENGTH && !p.CanHold(n, limit) ==> r == Nothing(closed, rest, events))
            && (header[28..32] == HeaderSum(header) && BadlySummed(header, rest) && p.CanHold(n, limit) ==>
                  n <= Credit(events) ==> r.Nothing? && r.rest == rest[n..])
  {
    hide Receive, HeaderSum, Crc32, WordBytes;
    if BadlySummed(header, rest) && Field(header, PAYLOAD_LENGTH_POS, 4) <= Credit(events) {
      ReceiveBenign(rest, events, Field(header, PAYLOAD_LENGTH_POS, 4));
      ReceiveDone(rest, events, Field(header, PAYLOAD_LENGTH_POS, 4));
    }
  }

  /** The header is followed by a payload that its payload checksum does not fit. */
  predicate BadlySummed(header: Header, rest: seq<byte>) {
    var n := Field(header, PAYLOAD_LENGTH_POS, 4);
    && 0 < n <= |rest|
    && header[16..20] != NO_SUM && header[16..20] != WordBytes(Crc32(rest[..n]))
  }

  /**
   A packet with a bad header checksum, or with a payload for which there is no room, is consumed up to the end of its
   header; one with a bad payload checksum is consumed whole.
   */
  lemma RefusedPacketIsTaken(junk: seq<byte>, header: Header, rest: seq<byte>, events: seq<Event>, p: Packet,
                             closed: bool, limit: HeapLimit)
    requires Junk(junk) && header[..4] == SYNC && !Announces(header)
    requires Benign(events) && |junk| + HEADER_LENGTH + |rest| <= Credit(events)
    ensures var n, r := Field(header, PAYLOAD_LENGTH_POS, 4), Read(junk + header + rest, events, p, closed, limit);
            && (header[28..32] != HeaderSum(header) ==> r.Nothing? && r.rest == rest)
            && (n > 0 && !p.Clear().CanHold(n, limit) ==> r.Nothing? && r.rest == rest)
            && (BadlySummed(header, rest) && p.Clear().CanHold(n, limit) ==>
                  r.Nothing? && r.rest == if header[28..32] == HeaderSum(header) then rest[n..] else rest)
  {
    hide Read, ReadPayload, Benign, Credit, HeaderSum;
    var later := HeaderIsReached(junk, header, rest, events, p, closed, limit);
    PayloadIsRefused(header, rest, later, p.Clear(), closed, limit);
  }
}
