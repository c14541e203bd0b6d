/** The client's connection: opening, losing and closing it, and what may still be sent or read. */
module Connections {
  import opened Bytes
  import opened MsgPackets
  import opened Packets
  import opened Wire
  import ConnectionEnds
  import Framing

  // What the outside world sees of a connection.

  datatype Sign =
    | Opened          // an Open succeeded
    | SocketUsed      // a packet was sent to or read from the socket
    | Disconnected    // OnDisconnect was called

  /** The connection was lost after it was last opened. */
  ghost predicate LostSinceOpen(trace: seq<Sign>) {
    trace != [] && match trace[|trace| - 1]
                   case Opened => false
                   case Disconnected => true
                   case SocketUsed => LostSinceOpen(trace[..|trace| - 1])
  }

  /** After a loss nothing happens before the next Open. */
  ghost predicate Disciplined(trace: seq<Sign>) {
    trace == [] ||
    var before, last := trace[..|trace| - 1], trace[|trace| - 1];
    Disciplined(before) && (LostSinceOpen(before) ==> last.Opened?)
  }

  lemma {:induction false} LostStaysLost(trace: seq<Sign>, i: nat)
    requires i < |trace| && trace[i].Disconnected? && !LostSinceOpen(trace)
    ensures exists k :: i < k < |trace| && trace[k].Opened?
  {
    var last := |trace| - 1;
    if trace[last].Opened? {
      assert i < last && trace[last].Opened?;
    } else {
      assert i < last;
      LostStaysLost(trace[..last], i);
      var k :| i < k < last && trace[..last][k].Opened?;
      assert trace[k].Opened?;
    }
  }

  /** Between two calls of OnDisconnect, and between one and the next use of the socket, lies a successful Open. */
  lemma {:induction false} OneLossPerOpen(trace: seq<Sign>, i: nat, j: nat)
    requires Disciplined(trace) && i < j < |trace|
    requires trace[i].Disconnected? && !trace[j].Opened?
    ensures exists k :: i < k < j && trace[k].Opened?
    decreases |trace|
  {
    var before := trace[..|trace| - 1];
    if j == |trace| - 1 {
      LostStaysLost(before, i);
      var k :| i < k < |before| && before[k].Opened?;
      assert trace[k].Opened?;
    } else {
      OneLossPerOpen(before, i, j);
      var k :| i < k < j && before[k].Opened?;
      assert trace[k].Opened?;
    }
  }

  /** The next answer of the socket is that the peer is gone. */
  predicate GoneAtOnce(events: seq<Event>) {
    events != [] && SaysGone(events[0])
  }

  /** The network may be slow or fail, but the peer stays. */
  ghost predicate NeverGone(events: seq<Event>) {
    forall e | e in events :: !SaysGone(e)
  }

  lemma ClosesIfGone(input: seq<byte>, events: seq<Event>, p: Packet, limit: HeapLimit)
    ensures var r := Framing.Read(input, events, p, false, limit);
            && (GoneAtOnce(events) ==> r.Nothing? && r.closed)
            && (NeverGone(events) && r.Nothing? ==> !r.closed)
  {
    hide Framing.Read;
    if GoneAtOnce(events) {
      ConnectionEnds.GoneAtOnceCloses(input, events, p, false, limit);
    }
    if NeverGone(events) && Framing.Read(input, events, p, false, limit).Nothing? {
      ConnectionEnds.OnlyGoneCloses(input, events, p, limit);
    }
  }

  class MsgConnection {
    var socket: Socket?
    var connectionlost: bool
    var aborting: bool
    ghost var trace: seq<Sign>

    ghost predicate Valid()
      reads this
    {
      Disciplined(trace) && (connectionlost <==> LostSinceOpen(trace)) && (connectionlost ==> socket == null)
    }

    constructor ()
      ensures Valid() && trace == [] && socket == null && !connectionlost && !aborting
    {
      socket, connectionlost, aborting := null, false, false;
      trace := [];
    }

    ghost method Note(sign: Sign)
      requires Disciplined(trace) && (LostSinceOpen(trace) ==> sign.Opened?)
      modifies this`trace
      ensures trace == old(trace) + [sign] && Disciplined(trace)
      ensures LostSinceOpen(trace) <==> sign.Disconnected? || (sign.SocketUsed? && LostSinceOpen(old(trace)))
    {
      trace := trace + [sign];
      assert trace[..|trace| - 1] == old(trace);
    }

    /** `found` is the connected socket, or null if there was no way to connect. */
    method Open(found: Socket?) returns (ok: bool)
      requires Valid()
      modifies this
      ensures Valid() && ok == (old(socket) == null && found != null)
      ensures ok ==> socket == found && !connectionlost && !aborting && trace == old(trace) + [Opened]
      ensures !ok ==> unchanged(this)
    {
      if socket != null || found == null {
        return false;
      }
      connectionlost := false;
      aborting := false;
      socket := found;
      Note(Opened);
      return true;
    }

    method Abort()
      modifies this`aborting
      ensures aborting && (old(Valid()) ==> Valid())
    {
      aborting := true;
    }

    method Close() returns (ok: bool)
      modifies this`socket, this`aborting
      ensures socket == null && ok == (old(socket) != null)
      ensures aborting == (old(aborting) && !ok)
      ensures old(Valid()) ==> Valid()
    {
      if socket == null {
        return false;
      }
      socket := null;
      aborting := false;
      return true;
    }

    /** Calls OnDisconnect, unless the loss is already known or wanted. */
    method SetConnectionLost()
      requires Valid()
      modifies this
      ensures Valid()
      ensures old(connectionlost || aborting) ==> unchanged(this)
      ensures !old(connectionlost || aborting) ==> trace == old(trace) + [Disconnected] && connectionlost
      ensures !old(connectionlost || aborting) ==> socket == null && aborting == (old(socket) == null)
    {
      if connectionlost || aborting {
        return;
      }
      connectionlost := true;
      Abort();
      var _ := Close();
      Note(Disconnected);
    }

    method SendRequest(request: MsgPacket) returns (ok: bool)
      requires Valid() && request.Valid()
      modifies this, request`freezed, request.packet, if socket == null then {} else {socket}
      ensures Valid() && request.Valid()
      ensures old(aborting || connectionlost) ==>
                !ok && unchanged(this) && unchanged(request) && unchanged(request.packet)
      ensures old(aborting || connectionlost) && socket != null ==> unchanged(socket)
      ensures !old(aborting || connectionlost) ==> request.View() == old(request.View()).Freeze()
      ensures ok ==> socket != null && socket == old(socket) && trace == old(trace) + [SocketUsed]
                     && socket.outgoing == old(socket.outgoing) + request.View().Image()
      ensures !old(aborting || connectionlost) && old(socket) != null ==>
                ok == Send(old(request.View()).Freeze().Image(), old(socket.events)).ok
      ensures !ok && !old(aborting || connectionlost) ==> connectionlost && socket == null
      ensures !ok && !old(aborting || connectionlost) ==>
                trace == old(trace) + if old(socket) == null then [Disconnected] else [SocketUsed, Disconnected]
    {
      hide Packet.Freeze, Send, Packet.Image;
      if aborting || connectionlost {
        return false;
      }
      if socket == null {
        request.Freeze();
        ok := false;
      } else {
        SendsPrefix(request.View().Freeze().Image(), socket.events);
        ok := request.Write(socket);
        Note(SocketUsed);
      }
      if !ok {
        SetConnectionLost();
      }
    }

    /** A response is whatever `Framing.Read` finds on the stream; only a closed stream counts as a loss. */
    method ReadResponse(p: MsgPacket) returns (ok: bool)
      requires Valid() && p.Valid()
      modifies this, p, p.packet, if socket == null then {} else {socket}
      ensures Valid()
      ensures old(aborting || connectionlost || socket == null) ==>
                !ok && unchanged(this) && unchanged(p) && unchanged(old(p.packet))
      ensures old((aborting || connectionlost) && socket != null) ==> unchanged(old(socket))
      ensures !old(aborting || connectionlost || socket == null) ==>
                var outcome := Framing.Read(old(socket.incoming), old(socket.events), old(p.View()), false, p.heap);
                if outcome.Nothing? then
                  && !ok && p.Valid() && connectionlost == outcome.closed && (outcome.closed ==> socket == null)
                  && trace == old(trace) + if outcome.closed then [SocketUsed, Disconnected] else [SocketUsed]
                else
                  && socket == old(socket) && p.Follows(outcome, ok, socket)
                  && !connectionlost && trace == old(trace) + [SocketUsed]
      ensures !old(aborting || connectionlost || socket == null) && GoneAtOnce(old(socket.events)) ==>
                !ok && connectionlost && socket == null && trace == old(trace) + [SocketUsed, Disconnected]
      ensures !old(aborting || connectionlost || socket == null) && NeverGone(old(socket.events)) ==>
                !connectionlost && socket == old(socket) && trace == old(trace) + [SocketUsed]
    {
      hide Framing.Read, NeverGone, GoneAtOnce;
      if aborting || connectionlost || socket == null {
        return false;
      }
      ClosesIfGone(socket.incoming, socket.events, p.View(), p.heap);
      var closed: bool;
      ok, closed := p.Read(socket, false);
      Note(SocketUsed);
      if closed {
        SetConnectionLost();
        return false;
      }
    }
  }
}
