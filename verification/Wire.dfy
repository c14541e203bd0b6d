/**
 Sockets as byte streams. What poll, recv and send answer is a script of events, so one script is one
 way for the network to split, delay or cut the stream; a script that has run out only times out.
 */
module Wire {
  import opened Bytes

  const ETIMEDOUT: int := 110
  const ECONNRESET: int := 104
  const EWOULDBLOCK: int := 11

  /** The error numbers a failed call can report, other than the one for an idle socket. */
  type Errno = e: int | e != 0 && e != EWOULDBLOCK witness 1

  datatype Event =
    | Timeout              // poll reports nothing
    | Ready(count: nat)    // the call moves at most this many bytes
    | WouldBlock           // poll was woken for nothing
    | Closed               // the peer has closed the connection
    | Failed(errno: Errno)

  function Min(a: nat, b: nat): nat {
    if a <= b then a else b
  }

  /** The first poll: false, and the time-out spent, if the script says so. */
  predicate PollReady(events: seq<Event>) {
    events != [] && !events[0].Timeout?
  }

  function AfterPoll(events: seq<Event>): seq<Event> {
    if events != [] && events[0].Timeout? then events[1..] else events
  }

  // Receiving an exact number of bytes.

  datatype Received = Received(rc: int, got: seq<byte>, rest: seq<byte>, events: seq<Event>)

  function Receive(input: seq<byte>, events: seq<Event>, want: nat): (r: Received)
    ensures |r.events| <= |events|
    decreases |events|
  {
    if want == 0 then
      Received(0, [], input, events)
    else if events == [] then
      Received(ETIMEDOUT, [], input, events)
    else
      match events[0]
      case Timeout => Received(ETIMEDOUT, [], input, events[1..])
      case Closed => Received(ECONNRESET, [], input, events[1..])
      case Failed(e) => Received(e, [], input, events[1..])
      case WouldBlock => Receive(input, events[1..], want)
      case Ready(n) =>
        var k := Min(n, Min(want, |input|));
        var r := Receive(input[k..], events[1..], want - k);
        r.(got := input[..k] + r.got)
  }

  /** No byte is lost, invented or reordered, and success means exactly the bytes asked for. */
  ghost predicate Splits(input: seq<byte>, want: nat, r: Received) {
    && input == r.got + r.rest
    && |r.got| <= want
    && (r.rc == 0 <==> |r.got| == want)
  }

  lemma SplitsLater(input: seq<byte>, k: nat, want: nat, r: Received)
    requires k <= |input| && k <= want && Splits(input[k..], want - k, r)
    ensures Splits(input, want, r.(got := input[..k] + r.got))
  {
    assert input == input[..k] + (r.got + r.rest);
  }

  lemma {:induction false} ReceiveSplits(input: seq<byte>, events: seq<Event>, want: nat)
    ensures Splits(input, want, Receive(input, events, want))
    decreases |events|
  {
    if want > 0 && events != [] {
      match events[0]
      case WouldBlock => ReceiveSplits(input, events[1..], want);
      case Ready(n) =>
        var k := Min(n, Min(want, |input|));
        ReceiveSplits(input[k..], events[1..], want - k);
        SplitsLater(input, k, want, Receive(input[k..], events[1..], want - k));
      case _ =>
    }
  }

  lemma NotTooMuch(input: seq<byte>, events: seq<Event>, want: nat)
    ensures |Receive(input, events, want).got| <= want
  {
    ReceiveSplits(input, events, want);
  }

  lemma ReceiveDone(input: seq<byte>, events: seq<Event>, want: nat)
    requires Receive(input, events, want).rc == 0
    ensures want <= |input|
    ensures var r := Receive(input, events, want); r.got == input[..want] && r.rest == input[want..]
  {
    ReceiveSplits(input, events, want);
  }

  lemma ReceiveEnds(input: seq<byte>, events: seq<Event>, want: nat)
    ensures want == 0 ==> Receive(input, events, want) == Received(0, [], input, events)
    ensures want > 0 && !PollReady(events) ==>
              Receive(input, events, want) == Received(ETIMEDOUT, [], input, AfterPoll(events))
  {
  }

  /** How many bytes an event moves when `want` are asked for and `available` are there. */
  function Moved(e: Event, want: nat, available: nat): (k: nat)
    ensures k <= want && k <= available && (k > 0 ==> e.Ready?)
  {
    if e.Ready? then Min(e.count, Min(want, available)) else 0
  }

  /** One pass of the receiving loop. */
  lemma ReceiveOneEvent(input: seq<byte>, events: seq<Event>, want: nat)
    requires want > 0 && PollReady(events)
    ensures events[0].Closed? ==> Receive(input, events, want) == Received(ECONNRESET, [], input, events[1..])
    ensures events[0].Failed? ==> Receive(input, events, want) == Received(events[0].errno, [], input, events[1..])
    ensures var k := Moved(events[0], want, |input|);
            && (k > 0 ==> var r := Receive(input[k..], events[1..], want - k);
                          Receive(input, events, want) == r.(got := input[..k] + r.got))
            && (k == 0 && !events[0].Closed? && !events[0].Failed? ==>
                  Receive(input, events, want) == Receive(input, events[1..], want))
  {
    if events[0].Ready? && Moved(events[0], want, |input|) == 0 {
      var r := Receive(input, events[1..], want);
      assert input[0..] == input && input[..0] + r.got == r.got;
    }
  }

  /** A script without time-outs, closures and errors. */
  predicate Benign(events: seq<Event>) {
    forall i | 0 <= i < |events| :: events[i].Ready? || events[i].WouldBlock?
  }

  /** The number of calls that move at least one byte. */
  function Credit(events: seq<Event>): nat {
    if events == [] then 0
    else (if events[0].Ready? && events[0].count > 0 then 1 else 0) + Credit(events[1..])
  }

  lemma {:induction false} ReceiveBenign(input: seq<byte>, events: seq<Event>, want: nat)
    requires Benign(events) && want <= Credit(events) && want <= |input|
    ensures var r := Receive(input, events, want);
            r.rc == 0 && Benign(r.events) && Credit(r.events) + want >= Credit(events)
    decreases |events|
  {
    if want > 0 {
      match events[0]
      case WouldBlock => ReceiveBenign(input, events[1..], want);
      case Ready(n) =>
        var k := Min(n, Min(want, |input|));
        ReceiveBenign(input[k..], events[1..], want - k);
    }
  }

  // The whole loop at once.

  /** The events that keep a loop going. */
  predicate GoesOn(e: Event) {
    e.Ready? || e.WouldBlock?
  }

  /** What the events up to the first that ends a loop can move. */
  function Moves(events: seq<Event>): nat {
    if events == [] || !GoesOn(events[0]) then 0
    else (if events[0].Ready? then events[0].count else 0) + Moves(events[1..])
  }

  /** The code of the first event that ends a loop; none is as good as a time-out. */
  function EndCode(events: seq<Event>): int {
    if events == [] then ETIMEDOUT
    else
      match events[0]
      case Timeout => ETIMEDOUT
      case Closed => ECONNRESET
      case Failed(e) => e
      case _ => EndCode(events[1..])
  }

  /** The first n bytes of the stream were received, with this code. */
  ghost predicate Front(input: seq<byte>, n: nat, rc: int, r: Received) {
    n <= |input| && r.got == input[..n] && r.rest == input[n..] && r.rc == rc
  }

  lemma FrontLater(input: seq<byte>, k: nat, n: nat, rc: int, r: Received)
    requires k <= |input| && Front(input[k..], n, rc, r)
    ensures Front(input, k + n, rc, r.(got := input[..k] + r.got))
  {
    assert input[..k] + input[k..][..n] == input[..k + n] && input[k..][n..] == input[k + n..];
  }

  /** What was received is the front of the stream, as much as was asked for, is there and can be moved in time. */
  ghost predicate InFull(input: seq<byte>, events: seq<Event>, want: nat, r: Received) {
    var n := Min(want, Min(|input|, Moves(events)));
    Front(input, n, if n == want then 0 else EndCode(events), r)
  }

  lemma InFullLater(input: seq<byte>, events: seq<Event>, want: nat, r: Received)
    requires want > 0 && events != [] && events[0].Ready?
    requires var k := Min(events[0].count, Min(want, |input|)); InFull(input[k..], events[1..], want - k, r)
    ensures var k := Min(events[0].count, Min(want, |input|));
            InFull(input, events, want, r.(got := input[..k] + r.got))
  {
    hide Front;
    var k := Min(events[0].count, Min(want, |input|));
    var n := Min(want - k, Min(|input| - k, Moves(events[1..])));
    FrontLater(input, k, n, if n == want - k then 0 else EndCode(events[1..]), r);
  }

  lemma {:induction false} ReceiveInFull(input: seq<byte>, events: seq<Event>, want: nat)
    ensures InFull(input, events, want, Receive(input, events, want))
    decreases |events|
  {
    if want > 0 && events != [] {
      match events[0]
      case WouldBlock => ReceiveInFull(input, events[1..], want);
      case Ready(n) =>
        var k := Min(n, Min(want, |input|));
        ReceiveInFull(input[k..], events[1..], want - k);
        InFullLater(input, events, want, Receive(input[k..], events[1..], want - k));
      case _ =>
    }
  }

  lemma InTwoSteps(input: seq<byte>, k: nat, n: nat)
    requires k + n <= |input|
    ensures input[..k] + input[k..][..n] == input[..k + n] && input[k..][n..] == input[k + n..]
  {
  }

  /** The events that say that the peer is gone. */
  predicate SaysGone(e: Event) {
    e.Closed? || e == Failed(ECONNRESET)
  }

  /** Events are used in order, and the last one used says whether the peer is gone, which is what the code says. */
  predicate Used(events: seq<Event>, rest: seq<Event>, rc: int) {
    var used := |events| - |rest|;
    && 0 <= used && rest == events[used..]
    && (rc == ECONNRESET <==> used > 0 && SaysGone(events[used - 1]))
  }

  lemma UsedLater(events: seq<Event>, rest: seq<Event>, rc: int)
    requires events != [] && GoesOn(events[0]) && Used(events[1..], rest, rc)
    ensures Used(events, rest, rc)
  {
  }

  /** What ends a loop at once: nothing to do, no more events, or an event that ends it. */
  lemma UsedAtOnce(events: seq<Event>)
    ensures Used(events, events, 0) && Used(events, events, ETIMEDOUT)
    ensures events != [] && !GoesOn(events[0]) ==> Used(events, events[1..], EndCode(events))
  {
  }

  lemma {:induction false} ReceiveUsed(input: seq<byte>, events: seq<Event>, want: nat)
    ensures var r := Receive(input, events, want); Used(events, r.events, r.rc)
    decreases |events|
  {
    hide Used, Receive;
    UsedAtOnce(events);
    ReceiveEnds(input, events, want);
    if want > 0 && PollReady(events) {
      ReceiveOneEvent(input, events, want);
      if GoesOn(events[0]) {
        var k := Moved(events[0], want, |input|);
        var left, later := if k > 0 then input[k..] else input, want - k;
        ReceiveUsed(left, events[1..], later);
        var r := Receive(left, events[1..], later);
        UsedLater(events, r.events, r.rc);
      }
    }
  }

  // Sending all of a buffer.

  datatype Sent = Sent(ok: bool, out: seq<byte>, events: seq<Event>)

  function Send(data: seq<byte>, events: seq<Event>): (r: Sent)
    ensures |r.events| <= |events|
    decreases |events|
  {
    if data == [] then
      Sent(true, [], events)
    else if events == [] then
      Sent(false, [], events)
    else
      match events[0]
      case Timeout => Sent(false, [], events[1..])
      case Closed => Sent(false, [], events[1..])
      case Failed(_) => Sent(false, [], events[1..])
      case WouldBlock => Send(data, events[1..])
      case Ready(n) =>
        var k := Min(n, |data|);
        var r := Send(data[k..], events[1..]);
        r.(out := data[..k] + r.out)
  }

  /** What leaves is a prefix of the data, each byte once, and all of it exactly on success. */
  lemma {:induction false} SendsPrefix(data: seq<byte>, events: seq<Event>)
    ensures var r := Send(data, events); r.out <= data && (r.ok <==> r.out == data)
    decreases |events|
  {
    if data != [] && events != [] {
      match events[0]
      case WouldBlock => SendsPrefix(data, events[1..]);
      case Ready(n) =>
        var k := Min(n, |data|);
        SendsPrefix(data[k..], events[1..]);
        assert data == data[..k] + data[k..];
      case _ =>
    }
  }

  lemma SendEnds(data: seq<byte>, events: seq<Event>)
    ensures data == [] ==> Send(data, events) == Sent(true, [], events)
    ensures data != [] && !PollReady(events) ==> Send(data, events) == Sent(false, [], AfterPoll(events))
  {
  }

  /** One pass of the sending loop. */
  lemma SendOneEvent(data: seq<byte>, events: seq<Event>)
    requires data != [] && PollReady(events)
    ensures events[0].Closed? || events[0].Failed? ==> Send(data, events) == Sent(false, [], events[1..])
    ensures var k := if events[0].Ready? then Min(events[0].count, |data|) else 0;
            && (k > 0 ==> var s := Send(data[k..], events[1..]);
                          Send(data, events) == s.(out := data[..k] + s.out))
            && (k == 0 && !events[0].Closed? && !events[0].Failed? ==> Send(data, events) == Send(data, events[1..]))
  {
    if events[0].Ready? && events[0].count == 0 {
      var s := Send(data, events[1..]);
      assert data[0..] == data && data[..0] + s.out == s.out;
      assert s.(out := s.out) == s;
    }
  }

  lemma {:induction false} SendBenign(data: seq<byte>, events: seq<Event>)
    requires Benign(events) && |data| <= Credit(events)
    ensures var r := Send(data, events);
            r.ok && Benign(r.events) && Credit(r.events) + |data| >= Credit(events)
    decreases |events|
  {
    if data != [] {
      match events[0]
      case WouldBlock => SendBenign(data, events[1..]);
      case Ready(n) =>
        var k := Min(n, |data|);
        SendBenign(data[k..], events[1..]);
    }
  }

  /** What is sent is the front of the data, as much as can be moved in time, and success means all of it. */
  lemma {:induction false} SendInFull(data: seq<byte>, events: seq<Event>)
    ensures var r, n := Send(data, events), Min(|data|, Moves(events));
            r.out == data[..n] && (r.ok <==> n == |data|)
    decreases |events|
  {
    if data != [] && events != [] {
      match events[0]
      case WouldBlock => SendInFull(data, events[1..]);
      case Ready(n) =>
        var k := Min(n, |data|);
        SendInFull(data[k..], events[1..]);
        InTwoSteps(data, k, Min(|data| - k, Moves(events[1..])));
      case _ =>
    }
  }

  /** The descriptor a packet is read from and written to. */
  class Socket {
    var incoming: seq<byte>
    var outgoing: seq<byte>
    var events: seq<Event>

    constructor (incoming: seq<byte>, events: seq<Event>)
      ensures this.incoming == incoming && this.outgoing == [] && this.events == events
    {
      this.incoming, this.outgoing, this.events := incoming, [], events;
    }

    /** poll: whether there is anything to do before the time-out. */
    method Poll() returns (ready: bool)
      modifies this`events
      ensures ready == PollReady(old(events)) && events == AfterPoll(old(events))
    {
      ready := PollReady(events);
      events := AfterPoll(events);
    }

    /** recv of at most `want` bytes into data[at..]: a count, 0 for a closed peer, or -1 and an errno. */
    method Recv(data: array<byte>, at: nat, want: nat) returns (rc: int, errno: int)
      requires PollReady(events)
      requires 0 < want && at + want <= data.Length
      modifies this`incoming, this`events, data
      ensures events == old(events)[1..]
      ensures var e, k := old(events)[0], Moved(old(events)[0], want, |old(incoming)|);
              && incoming == old(incoming)[k..]
              && data[..] == Patch(old(data[..]), at, old(incoming)[..k])
              && rc == (if k > 0 then k else if e.Closed? then 0 else -1)
              && (rc == -1 ==> errno == if e.Failed? then e.errno else EWOULDBLOCK)
    {
      ghost var before, chunk := data[..], incoming[..Moved(events[0], want, |incoming|)];
      PatchNothing(before, at);
      var e := events[0];
      events := events[1..];
      rc, errno := -1, EWOULDBLOCK;
      match e {
        case Closed => rc := 0;
        case Failed(n) => errno := n;
        case Ready(n) =>
          var k := Min(n, Min(want, |incoming|));
          if k > 0 {
            forall i | 0 <= i < k {
              data[at + i] := incoming[i];
            }
            rc, incoming := k, incoming[k..];
            assert data[..] == Patch(before, at, chunk);
          }
        case _ =>
      }
    }

    /** send of at most |data| bytes: a count, or -1 and an errno. */
    method SendSome(data: seq<byte>) returns (rc: int, errno: int)
      requires PollReady(events) && data != []
      modifies this`outgoing, this`events
      ensures events == old(events)[1..]
      ensures var e := old(events)[0];
              var k := if e.Ready? then Min(e.count, |data|) else 0;
              && outgoing == old(outgoing) + data[..k]
              && rc == (if k > 0 then k else if e.Closed? then 0 else -1)
              && errno == (if e.Failed? then e.errno else if e.Closed? then ECONNRESET else EWOULDBLOCK)
    {
      var e := events[0];
      events := events[1..];
      rc, errno := -1, EWOULDBLOCK;
      match e {
        case Closed => rc, errno := 0, ECONNRESET;
        case Failed(n) => errno := n;
        case Ready(n) =>
          var k := Min(n, |data|);
          outgoing := outgoing + data[..k];
          if k > 0 {
            rc := k;
          }
        case _ =>
      }
    }
  }

  /** Fills `data` from `pos` on with datalen bytes, however many calls that takes. */
  method SocketRead(fd: Socket, data: array<byte>, pos: nat, datalen: Size) returns (rc: int)
    requires pos + datalen <= data.Length
    modifies fd`incoming, fd`events, data
    ensures var r := Receive(old(fd.incoming), old(fd.events), datalen);
            && rc == r.rc && fd.incoming == r.rest && fd.events == r.events
            && |r.got| <= datalen
            && data[..] == Patch(old(data[..]), pos, r.got)
  {
    hide Receive, Patch, Filling, Moved, Min;
    ghost var before := data[..];
    ghost var goal := Receive(fd.incoming, fd.events, datalen);
    NotTooMuch(fd.incoming, fd.events, datalen);
    PatchNothing(before, pos);
    ghost var done: seq<byte> := [];
    var read: nat := 0;
    FillingStarts(fd.incoming, fd.events, datalen);
    while read < datalen
      invariant read <= datalen && |done| == read
      invariant Filling(goal, done, fd.incoming, fd.events, datalen - read)
      invariant data[..] == Patch(before, pos, done)
      decreases |fd.events|
    {
      FillingEnds(goal, done, fd.incoming, fd.events, datalen - read);
      var ready := fd.Poll();
      if !ready {
        return ETIMEDOUT;
      }
      FillingGoesOn(goal, done, fd.incoming, fd.events, datalen - read);
      ghost var chunk := fd.incoming[..Moved(fd.events[0], datalen - read, |fd.incoming|)];
      PatchOnward(before, pos, done, chunk);
      var n, errno := fd.Recv(data, pos + read, datalen - read);
      done := done + chunk;
      if n == 0 {
        return ECONNRESET;
      } else if n == -1 {
        if errno == EWOULDBLOCK {
          continue;
        }
        return errno;
      }
      read := read + n;
    }
    FillingEnds(goal, done, fd.incoming, fd.events, 0);
    return 0;
  }

  /** With `done` received and `left` bytes to go, the rest of the loop still leads to `goal`. */
  ghost predicate Filling(goal: Received, done: seq<byte>, input: seq<byte>, events: seq<Event>, left: nat) {
    var r := Receive(input, events, left);
    goal == r.(got := done + r.got)
  }

  lemma FillingStarts(input: seq<byte>, events: seq<Event>, want: nat)
    ensures Filling(Receive(input, events, want), [], input, events, want)
  {
    assert [] + Receive(input, events, want).got == Receive(input, events, want).got;
  }

  lemma FillingGoesOn(goal: Received, done: seq<byte>, input: seq<byte>, events: seq<Event>, left: nat)
    requires Filling(goal, done, input, events, left) && left > 0 && PollReady(events)
    ensures var k := Moved(events[0], left, |input|);
            if events[0].Closed? then goal == Received(ECONNRESET, done + input[..k], input[k..], events[1..])
            else if events[0].Failed? then goal == Received(events[0].errno, done + input[..k], input[k..], events[1..])
            else Filling(goal, done + input[..k], input[k..], events[1..], left - k)
  {
    ReceiveOneEvent(input, events, left);
    hide Receive;
    var k := Moved(events[0], left, |input|);
    var next := Receive(input[k..], events[1..], left - k);
    assert (done + input[..k]) + next.got == done + (input[..k] + next.got);
    assert done + [] == done && input[..0] == [] && input[0..] == input;
  }

  lemma FillingEnds(goal: Received, done: seq<byte>, input: seq<byte>, events: seq<Event>, left: nat)
    requires Filling(goal, done, input, events, left)
    ensures left == 0 ==> goal == Received(0, done, input, events)
    ensures left > 0 && !PollReady(events) ==> goal == Received(ETIMEDOUT, done, input, AfterPoll(events))
  {
    ReceiveEnds(input, events, left);
    assert done + [] == done;
  }

  /** Sends the first `length` bytes of data, in as many pieces as the socket takes. */
  method SocketWrite(fd: Socket, data: array<byte>, length: nat) returns (ok: bool)
    requires length <= data.Length
    modifies fd`outgoing, fd`events
    ensures var s := Send(data[..length], old(fd.events));
            ok == s.ok && fd.outgoing == old(fd.outgoing) + s.out && fd.events == s.events
  {
    hide Send, Sending, Min;
    ghost var image := data[..length];
    ghost var goal := Send(image, fd.events);
    SendingStarts(image, fd.events);
    var written: nat := 0;
    while written < length
      invariant written <= length
      invariant Sending(goal, image, written, fd.events)
      invariant fd.outgoing == old(fd.outgoing) + image[..written]
      decreases |fd.events|
    {
      SendingEnds(goal, image, written, fd.events);
      var ready := fd.Poll();
      if !ready {
        return false;
      }
      SendingGoesOn(goal, image, written, fd.events);
      assert data[written..length] == image[written..];
      var rc, errno := fd.SendSome(data[written..length]);
      if rc == -1 || rc == 0 {
        if errno == EWOULDBLOCK {
          continue;
        }
        return false;
      }
      TakenTwice(image, written, rc);
      written := written + rc;
    }
    SendingEnds(goal, image, written, fd.events);
    return true;
  }

  /** With the first bytes written, the rest of the loop still leads to `goal`. */
  ghost predicate Sending(goal: Sent, image: seq<byte>, written: nat, events: seq<Event>)
    requires written <= |image|
  {
    var s := Send(image[written..], events);
    goal == s.(out := image[..written] + s.out)
  }

  lemma SendingStarts(image: seq<byte>, events: seq<Event>)
    ensures Sending(Send(image, events), image, 0, events)
  {
    assert image[0..] == image && [] + Send(image, events).out == Send(image, events).out;
  }

  lemma SendingGoesOn(goal: Sent, image: seq<byte>, written: nat, events: seq<Event>)
    requires written < |image| && Sending(goal, image, written, events) && PollReady(events)
    ensures var k := if events[0].Ready? then Min(events[0].count, |image| - written) else 0;
            && k <= |image| - written
            && if events[0].Closed? || events[0].Failed? then goal == Sent(false, image[..written], events[1..])
               else Sending(goal, image, written + k, events[1..])
  {
    var rest := image[written..];
    SendOneEvent(rest, events);
    hide Send;
    var k := if events[0].Ready? then Min(events[0].count, |rest|) else 0;
    TakenTwice(image, written, k);
    var next := Send(image[written + k..], events[1..]);
    assert image[..written] + (rest[..k] + next.out) == (image[..written] + rest[..k]) + next.out;
    assert image[..written] + [] == image[..written];
  }

  lemma SendingEnds(goal: Sent, image: seq<byte>, written: nat, events: seq<Event>)
    requires written <= |image| && Sending(goal, image, written, events)
    ensures written == |image| ==> goal == Sent(true, image, events)
    ensures written < |image| && !PollReady(events) ==> goal == Sent(false, image[..written], AfterPoll(events))
  {
    SendEnds(image[written..], events);
    hide Send;
    assert image[..written] + [] == image[..written];
    assert image[..|image|] == image;
  }

  lemma TakenTwice(image: seq<byte>, written: nat, count: nat)
    requires written + count <= |image|
    ensures image[written..][count..] == image[written + count..]
    ensures image[..written] + image[written..][..count] == image[..written + count]
  {
  }
}
