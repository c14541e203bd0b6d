/** The server's choice for every connection: a new handler, a clone of one, or one that waits to be reused. */
module Servers {
  import opened ThreadQueues

  datatype Outcome =
    | Failed                     // no handler could be created
    | Created(h: MsgThread)
    | Cloned(h: MsgThread)
    | Reused(h: MsgThread)
    | Stuck                      // the server waits, for ever, for a handler to fall asleep

  /** The first thread with that id. */
  ghost function FirstOf(ts: seq<MsgThread>, id: nat): (t: MsgThread?)
    reads ts
    ensures t != null ==> t in ts && t.id == id
  {
    if ts == [] then null else if ts[0].id == id then ts[0] else FirstOf(ts[1..], id)
  }

  lemma {:induction false} FirstOfFound(ts: seq<MsgThread>, id: nat, i: nat)
    requires i < |ts| && ts[i].id == id && forall j :: 0 <= j < i ==> ts[j].id != id
    ensures FirstOf(ts, id) == ts[i]
  {
    if i > 0 {
      FirstOfFound(ts[1..], id, i - 1);
    }
  }

  lemma {:induction false} FirstOfKnown(ts: seq<MsgThread>, id: nat, t: MsgThread)
    requires t in ts && t.id == id
    ensures FirstOf(ts, id) != null
  {
    if ts[0].id != id {
      FirstOfKnown(ts[1..], id, t);
    }
  }

  /** No two handlers have the same id, unless it is 0. */
  ghost predicate UniqueIds(ts: seq<MsgThread>)
    reads ts
  {
    forall i, j :: 0 <= i < j < |ts| && ts[i].id == ts[j].id ==> ts[i].id == 0
  }

  /** Only persistent handlers have an id or sleep. */
  ghost predicate OthersAnonymous(ts: seq<MsgThread>)
    reads ts
  {
    forall h :: h in ts && (h.id != 0 || h.sleeping) ==> h.persistent
  }

  lemma InsertKeepsUnique(ts: seq<MsgThread>, n: MsgThread, at: nat)
    requires UniqueIds(ts) && at <= |ts|
    requires n.id == 0 || forall h :: h in ts ==> h.id != n.id
    ensures UniqueIds(ts[..at] + [n] + ts[at..])
  {
    var us := ts[..at] + [n] + ts[at..];
    forall i, j | 0 <= i < j < |us| && us[i].id == us[j].id ensures us[i].id == 0 {
      var a, b := if i < at then i else i - 1, if j < at then j else j - 1;
      assert i != at ==> us[i] == ts[a] && ts[a] in ts;
      assert j != at ==> us[j] == ts[b] && ts[b] in ts;
    }
  }

  lemma KeptKeepsUnique(ts: seq<MsgThread>, live: set<MsgThread>)
    requires UniqueIds(ts) && Distinct(ts)
    ensures UniqueIds(Kept(ts, live)) && forall t :: t in Kept(ts, live) ==> t in ts
  {
    KeptAreTheLive(ts, live);
    var us := Kept(ts, live);
    forall i, j | 0 <= i < j < |us| && us[i].id == us[j].id ensures us[i].id == 0 {
      assert us[i] in us && us[j] in us;
      var a :| 0 <= a < |ts| && ts[a] == us[i];
      var b :| 0 <= b < |ts| && ts[b] == us[j];
    }
  }

  class MsgServer {
    const handlers: MsgThreadQueue
    var persistance: bool        // keep handlers of lost connections for the same address

    ghost predicate Valid()
      reads this, handlers, handlers.threads, handlers.deleted
    {
      handlers.Valid() && UniqueIds(handlers.threads) && OthersAnonymous(handlers.threads)
    }

    constructor ()
      ensures Valid() && fresh(handlers) && handlers.threads == [] && !persistance
    {
      persistance := false;
      handlers := new MsgThreadQueue();
    }

    /** Starts a new handler and adds it to the others. */
    method Launch(n: MsgThread, ended: bool, at: nat)
      requires Valid() && at <= |handlers.threads| && n !in handlers.threads && n.stopped && n.alive
      requires !n.sleeping && (n.id != 0 ==> n.persistent)
      requires n.id == 0 || forall h :: h in handlers.threads ==> h.id != n.id
      modifies handlers`threads, handlers`log, n`running, n`stopped
      ensures Valid() && handlers.threads == old(handlers.threads[..at] + [n] + handlers.threads[at..])
    {
      hide Stage, Orderly, MsgThreadQueue.Valid;
      InsertKeepsUnique(handlers.threads, n, at);
      var _ := handlers.Run(n, ended, at);
    }

    /** Gives a sleeping handler the new connection and wakes it. */
    method Reuse(h: MsgThread, fd: nat)
      requires Valid() && h in handlers.threads
      modifies h`socket, h`disconnected, h`sleeping
      ensures Valid() && h.socket == fd && !h.disconnected && !h.sleeping
    {
      h.socket := fd;
      h.disconnected := false;
      h.sleeping := false;
    }

    method Nap(h: MsgThread)
      requires Valid() && h in handlers.threads && h.persistent
      modifies h`sleeping
      ensures Valid() && h.sleeping
    {
      h.sleeping := true;
    }

    /**
     A connection from `client`, on descriptor `fd`. `made`: CreateHandler returns a handler. `naps`: the
     handler that is found falls asleep while the server waits for that. `ended` and `at` are as in
     MsgThreadQueue.Run.
     */
    method Accept(client: nat, fd: nat, made: bool, naps: bool, ended: bool, at: nat) returns (outcome: Outcome)
      requires Valid() && at <= |handlers.threads|
      modifies handlers, handlers.threads`socket, handlers.threads`disconnected, handlers.threads`sleeping
      ensures Valid()
      ensures var h := old(FirstOf(handlers.threads, client));
              if h == null then outcome == Failed || outcome.Created?
              else if old(!h.disconnected && h.persistent) then outcome.Cloned?
              else if old(h.sleeping) || (naps && old(h.persistent)) then outcome == Reused(h)
              else outcome == Stuck
      ensures naps ==>
                (outcome == Stuck <==> old(var h := FirstOf(handlers.threads, client); h != null && !h.persistent))
      ensures naps && client != 0 ==> outcome != Stuck
      ensures outcome.Created? || outcome.Cloned? || outcome.Reused? ==> outcome.h.alive
      ensures outcome.Created? || outcome.Cloned? ==>
                fresh(outcome.h) && outcome.h.socket == fd &&
                handlers.threads == old(handlers.threads[..at]) + [outcome.h] + old(handlers.threads[at..])
      ensures outcome.Created? ==>
                outcome.h.persistent == persistance && outcome.h.id == if persistance then client else 0
      ensures outcome.Cloned? ==> !outcome.h.persistent && outcome.h.id == 0
      ensures outcome.Reused? ==> outcome.h.socket == fd && !outcome.h.disconnected && !outcome.h.sleeping
      ensures !outcome.Created? && !outcome.Cloned? ==> handlers.threads == old(handlers.threads)
      ensures forall u :: u in old(handlers.threads) && outcome != Reused(u) ==>
                u.socket == old(u.socket) && u.disconnected == old(u.disconnected) && u.sleeping == old(u.sleeping)
    {
      hide Stage, Orderly, UniqueIds, FirstOf, MsgThreadQueue.Valid;
      var h := handlers.FindByID(client);
      SameFirst(h, client);
      if h == null {
        if !made {
          return Failed;
        }
        var n := new MsgThread(fd);
        n.persistent := persistance;
        if n.persistent {
          n.id := client;
        }
        Launch(n, ended, at);
        return Created(n);
      }
      if !h.disconnected && h.persistent {
        var n := new MsgThread(fd);
        n.id := 0;
        n.persistent := false;
        Launch(n, ended, at);
        return Cloned(n);
      }
      if !h.sleeping && naps && h.persistent {
        Nap(h);
      }
      if !h.sleeping {
        return Stuck;
      }
      Reuse(h, fd);
      return Reused(h);
    }

    /** At any time at most one handler has a client's id, and connections of that client go by it. */
    lemma OneHandlerPerClient(client: nat, g: MsgThread, h: MsgThread)
      requires Valid() && client != 0
      requires g in handlers.threads && h in handlers.threads && g.id == h.id == client
      ensures g == h == FirstOf(handlers.threads, client) && h.persistent
    {
      FirstOfKnown(handlers.threads, client, h);
      FirstOfKnown(handlers.threads, client, g);
      var f := FirstOf(handlers.threads, client);
      var i :| 0 <= i < |handlers.threads| && handlers.threads[i] == g;
      var j :| 0 <= j < |handlers.threads| && handlers.threads[j] == h;
      var k :| 0 <= k < |handlers.threads| && handlers.threads[k] == f;
      assert i == k && j == k;
    }

    /** When Accept finds no handler, a connected one (and clones it) or a disconnected one (and reuses it). */
    lemma ChoiceForClient(client: nat)
      requires Valid() && client != 0
      ensures var h := FirstOf(handlers.threads, client);
              && (h == null <==> forall u :: u in handlers.threads ==> u.id != client)
              && (h != null ==> h.persistent)
              && (h != null && !h.disconnected <==>
                    exists u :: u in handlers.threads && u.id == client && !u.disconnected)
              && (h != null && h.disconnected <==>
                    exists u :: u in handlers.threads && u.id == client && u.disconnected)
    {
      forall u | u in handlers.threads && u.id == client ensures u == FirstOf(handlers.threads, client) {
        OneHandlerPerClient(client, u, u);
      }
    }

    // What happens beside the server: the steps of a handler's own thread, and of the queue's.

    /** The handler's client is gone. */
    method Disconnect(h: MsgThread)
      requires Valid() && h in handlers.threads
      modifies h`disconnected
      ensures Valid() && h.disconnected && handlers.threads == old(handlers.threads)
    {
      h.disconnected := true;
    }

    /** The handler goes on after it was woken. */
    method Resume(h: MsgThread)
      requires Valid() && h in handlers.threads
      modifies h`disconnected, h`sleeping
      ensures Valid() && !h.sleeping && !h.disconnected && handlers.threads == old(handlers.threads)
    {
      h.sleeping := false;
      h.disconnected := false;
    }

    method Finish(h: MsgThread)
      requires Valid() && h in handlers.threads
      modifies h`running
      ensures Valid() && !h.running && handlers.threads == old(handlers.threads)
    {
      h.running := false;
    }

    method SetPersistance(keep: bool)
      requires Valid()
      modifies this`persistance
      ensures Valid() && persistance == keep
    {
      persistance := keep;
    }

    /** The queue's thread removes the handlers that have ended. */
    method Reap(ending: set<MsgThread>)
      requires Valid()
      modifies handlers, handlers.threads`running, handlers.threads`stopped
      modifies handlers.threads`sleeping, handlers.threads`alive
      ensures Valid() && handlers.threads == Kept(old(handlers.threads), old(Awake(handlers.threads)) - ending)
    {
      hide Stage, Orderly, Kept;
      ghost var ts, live := handlers.threads, Awake(handlers.threads) - ending;
      handlers.Sweep(ending);
      KeptKeepsUnique(ts, live);
    }

    method Stop()
      requires Valid()
      modifies handlers, handlers.threads`running, handlers.threads`stopped
      modifies handlers.threads`sleeping, handlers.threads`alive
      ensures Valid() && handlers.threads == []
    {
      handlers.StopAll();
    }

    lemma SameFirst(h: MsgThread?, client: nat)
      requires h == null <==> forall u :: u in handlers.threads ==> u.id != client
      requires h != null ==>
                 exists i :: 0 <= i < |handlers.threads| && handlers.threads[i] == h && handlers.First(i, client)
      ensures FirstOf(handlers.threads, client) == h
    {
      if h != null {
        var i :| 0 <= i < |handlers.threads| && handlers.threads[i] == h && handlers.First(i, client);
        FirstOfFound(handlers.threads, client, i);
      }
    }
  }
}
