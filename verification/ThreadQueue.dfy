/** Threads, and the queue that owns them: it starts them, and stops, deletes and removes them when they have ended. */
module ThreadQueues {
  /**
   A worker thread, with the fields that client handlers, the server's threads, have besides.
   The worker itself decides when it ends and when it goes to sleep.
   */
  class MsgThread {
    var running: bool
    var stopped: bool
    var sleeping: bool
    var id: nat
    var persistent: bool
    var disconnected: bool
    var socket: nat
    ghost var alive: bool      // not deleted

    constructor (sock: nat)
      ensures !running && stopped && !sleeping && id == 0 && !persistent && !disconnected && socket == sock && alive
    {
      alive := true;
      running, stopped, sleeping := false, true, false;
      id, persistent, disconnected, socket := 0, false, false, sock;
    }

    /** `ended`: the thread's function has already returned when Start does. */
    method Start(ended: bool) returns (ok: bool)
      requires alive
      modifies this`running, this`stopped
      ensures ok == old(stopped) && !stopped
      ensures ok ==> running == !ended
      ensures !ok ==> running == old(running)
    {
      if !stopped {
        return false;
      }
      stopped := false;
      running := !ended;
      return true;
    }

    /** The worker is woken and joined, so it is over when Stop returns. */
    method Stop() returns (ok: bool)
      requires alive
      modifies this`running, this`stopped, this`sleeping
      ensures ok == !old(stopped) && stopped
      ensures ok ==> !running && !sleeping
      ensures !ok ==> running == old(running) && sleeping == old(sleeping)
    {
      if stopped {
        return false;
      }
      running := false;
      sleeping := false;
      stopped := true;
      return true;
    }

    /** A thread that was not stopped must not be deleted, and none twice. */
    method Delete()
      requires alive && stopped
      modifies this`alive
      ensures !alive
    {
      alive := false;
    }
  }

  // The record of what a queue does with its threads.

  datatype Sign =
    | Added(t: MsgThread)
    | Stopped(t: MsgThread)
    | Deleted(t: MsgThread)
    | Removed(t: MsgThread)
  {
    function Rank(): nat {
      match this
      case Added(_) => 1
      case Stopped(_) => 2
      case Deleted(_) => 3
      case Removed(_) => 4
    }
  }

  /** The rank of the last sign of t, 0 if there is none. */
  ghost function Stage(log: seq<Sign>, t: MsgThread): nat {
    if log == [] then 0
    else if log[|log| - 1].t == t then log[|log| - 1].Rank()
    else Stage(log[..|log| - 1], t)
  }

  /** Every sign of a thread is one rank above its last one. */
  ghost predicate Orderly(log: seq<Sign>) {
    log == [] ||
    var before, last := log[..|log| - 1], log[|log| - 1];
    Orderly(before) && last.Rank() == Stage(before, last.t) + 1
  }

  lemma {:induction false} StageIsReached(log: seq<Sign>, t: MsgThread)
    requires Stage(log, t) > 0
    ensures exists i :: 0 <= i < |log| && log[i].t == t && log[i].Rank() == Stage(log, t)
  {
    var last := |log| - 1;
    if log[last].t == t {
      assert log[last].Rank() == Stage(log, t);
    } else {
      StageIsReached(log[..last], t);
      var i :| 0 <= i < last && log[..last][i].t == t && log[..last][i].Rank() == Stage(log[..last], t);
      assert log[i].t == t;
    }
  }

  lemma StageOfStranger(log: seq<Sign>, t: MsgThread)
    requires forall i :: 0 <= i < |log| ==> log[i].t != t
    ensures Stage(log, t) == 0
  {
    if Stage(log, t) > 0 {
      StageIsReached(log, t);
    }
  }

  lemma {:induction false} StageIsLatest(log: seq<Sign>, i: nat)
    requires Orderly(log) && i < |log|
    ensures log[i].Rank() <= Stage(log, log[i].t)
  {
    var last := |log| - 1;
    if i < last {
      StageIsLatest(log[..last], i);
    }
  }

  /** No thread is added, stopped, deleted or removed twice, or out of that order. */
  lemma {:induction false} OnceAndInOrder(log: seq<Sign>, i: nat, j: nat)
    requires Orderly(log) && i < j < |log| && log[i].t == log[j].t
    ensures log[i].Rank() < log[j].Rank()
  {
    var last := |log| - 1;
    if j == last {
      StageIsLatest(log[..last], i);
    } else {
      OnceAndInOrder(log[..last], i, j);
    }
  }

  /** Whatever happens to a thread, everything before it in that order has happened before. */
  lemma {:induction false} NoStepSkipped(log: seq<Sign>, j: nat, rank: nat)
    requires Orderly(log) && j < |log| && 1 <= rank < log[j].Rank()
    ensures exists i :: 0 <= i < j && log[i].t == log[j].t && log[i].Rank() == rank
    decreases |log|, log[j].Rank()
  {
    var last := |log| - 1;
    var before := log[..last];
    if j < last {
      NoStepSkipped(before, j, rank);
      var i :| 0 <= i < j && before[i].t == before[j].t && before[i].Rank() == rank;
      assert log[i].t == log[j].t;
    } else {
      StageIsReached(before, log[j].t);
      var i :| 0 <= i < last && before[i].t == log[j].t && before[i].Rank() == log[j].Rank() - 1;
      assert log[i].t == log[j].t;
      if rank < log[i].Rank() {
        NoStepSkipped(before, i, rank);
        var h :| 0 <= h < i && before[h].t == before[i].t && before[h].Rank() == rank;
        assert log[h].t == log[j].t;
      }
    }
  }

  // Sweeping.

  /** The threads that a sweep leaves, in their order. */
  ghost function Kept(ts: seq<MsgThread>, live: set<MsgThread>): seq<MsgThread> {
    if ts == [] then [] else (if ts[0] in live then [ts[0]] else []) + Kept(ts[1..], live)
  }

  lemma {:induction false} KeptAreTheLive(ts: seq<MsgThread>, live: set<MsgThread>)
    ensures forall t :: t in Kept(ts, live) <==> t in ts && t in live
    ensures Distinct(ts) ==> Distinct(Kept(ts, live))
  {
    if ts != [] {
      KeptAreTheLive(ts[1..], live);
      assert forall t :: t in ts <==> t == ts[0] || t in ts[1..];
      if Distinct(ts) {
        assert Distinct(ts[1..]) && ts[0] !in ts[1..];
      }
    }
  }

  /** And in the order in which they were. */
  lemma {:induction false} KeptInOrder(ts: seq<MsgThread>, live: set<MsgThread>, i: nat, j: nat)
    returns (a: nat, b: nat)
    requires i < j < |ts| && ts[i] in live && ts[j] in live
    ensures var kept := Kept(ts, live); a < b < |kept| && kept[a] == ts[i] && kept[b] == ts[j]
  {
    var later := Kept(ts[1..], live);
    if i == 0 {
      KeptAreTheLive(ts[1..], live);
      assert ts[j] == ts[1..][j - 1] && ts[j] in later;
      var k :| 0 <= k < |later| && later[k] == ts[j];
      a, b := 0, k + 1;
    } else {
      a, b := KeptInOrder(ts[1..], live, i - 1, j - 1);
      if ts[0] in live {
        a, b := a + 1, b + 1;
      }
    }
  }

  ghost function Farewell(t: MsgThread): seq<Sign> {
    [Stopped(t), Deleted(t), Removed(t)]
  }

  /** What is recorded of a sweep: the threads that are not live are stopped, deleted and removed, one by one. */
  ghost function Farewells(ts: seq<MsgThread>, live: set<MsgThread>): seq<Sign> {
    if ts == [] then [] else (if ts[0] in live then [] else Farewell(ts[0])) + Farewells(ts[1..], live)
  }

  predicate Distinct<T(==)>(ts: seq<T>) {
    forall i, j :: 0 <= i < j < |ts| ==> ts[i] != ts[j]
  }

  lemma NextStage(log: seq<Sign>, sign: Sign)
    requires Orderly(log) && sign.Rank() == Stage(log, sign.t) + 1
    ensures Orderly(log + [sign]) && Stage(log + [sign], sign.t) == sign.Rank()
    ensures forall u :: u != sign.t ==> Stage(log + [sign], u) == Stage(log, u)
  {
    assert (log + [sign])[..|log|] == log;
  }

  class MsgThreadQueue {
    var threads: seq<MsgThread>          // the set, in the order it is walked through
    ghost var log: seq<Sign>
    ghost var deleted: set<MsgThread>

    /** The threads of the set are alive and not stopped; whatever else the queue has had to do with is deleted. */
    ghost predicate Valid()
      reads this, threads, deleted
    {
      && Distinct(threads) && Orderly(log)
      && (forall t :: t in threads ==> Stage(log, t) == 1 && !t.stopped && t.alive)
      && (forall t :: t in deleted ==> Stage(log, t) == 4 && !t.alive)
      && (forall i :: 0 <= i < |log| ==> log[i].t in threads || log[i].t in deleted)
    }

    constructor ()
      ensures Valid() && threads == [] && log == [] && deleted == {}
    {
      threads, log, deleted := [], [], {};
    }

    /** `at` is where the set puts the thread among the others. */
    method Run(t: MsgThread, ended: bool, at: nat) returns (ok: bool)
      requires Valid() && t.alive && at <= |threads|
      modifies this`threads, this`log, t`running, t`stopped
      ensures Valid() && ok == old(t.stopped)
      ensures ok ==> threads == old(threads[..at] + [t] + threads[at..]) && log == old(log) + [Added(t)]
      ensures ok ==> t.running == !ended
      ensures !ok ==> threads == old(threads) && log == old(log) && t.running == old(t.running)
    {
      ok := t.Start(ended);
      if ok {
        StageOfStranger(log, t);
        NextStage(log, Added(t));
        threads := threads[..at] + [t] + threads[at..];
        log := log + [Added(t)];
      }
    }

    /** Stops and deletes the i-th thread and erases it from the set; each step is recorded where it is done. */
    method Retire(i: nat, t: MsgThread)
      requires Valid() && i < |threads| && threads[i] == t
      modifies this, t`running, t`stopped, t`sleeping, t`alive
      ensures Valid() && threads == old(threads[..i] + threads[i + 1..])
      ensures log == old(log) + Farewell(t) && deleted == old(deleted) + {t}
      ensures !t.running && (t.sleeping ==> old(t.sleeping))
    {
      hide Orderly, Stage;
      var stopped := t.Stop();
      if stopped {
        NextStage(log, Stopped(t));
        log := log + [Stopped(t)];
      }
      t.Delete();
      NextStage(log, Deleted(t));
      log, deleted := log + [Deleted(t)], deleted + {t};
      threads := threads[..i] + threads[i + 1..];
      NextStage(log, Removed(t));
      log := log + [Removed(t)];
    }

    /** One turn of the sweep. `ended`: the thread's function has returned by now. */
    method Visit(i: nat, t: MsgThread, ended: bool, ghost rest: seq<MsgThread>, ghost awake: set<MsgThread>)
      returns (gone: bool)
      requires Valid() && i < |threads| && threads[i] == t
      requires t !in rest && Remain(rest, awake)
      modifies this, t`running, t`stopped, t`sleeping, t`alive
      ensures Valid() && gone == !(old(t.running) && !ended) && Remain(rest, awake)
      ensures t.sleeping ==> old(t.sleeping)
      ensures gone ==> threads == old(threads[..i] + threads[i + 1..]) && log == old(log) + Farewell(t)
      ensures gone ==> deleted == old(deleted) + {t}
      ensures !gone ==> threads == old(threads) && log == old(log) && deleted == old(deleted)
    {
      if ended {
        t.running := false;
      }
      gone := !t.running;
      if gone {
        Retire(i, t);
      }
    }

    /**
     Removes every thread that has ended, and no other. `ending` are those that end before the sweep comes to them.
     */
    method Sweep(ending: set<MsgThread>)
      requires Valid()
      modifies this, threads`running, threads`stopped, threads`sleeping, threads`alive
      ensures Valid()
      ensures threads == Kept(old(threads), old(Awake(threads)) - ending)
      ensures log == old(log) + Farewells(old(threads), old(Awake(threads)) - ending)
      ensures forall t :: t in old(threads) && t.sleeping ==> old(t.sleeping)
    {
      ghost var ts, awake := threads, Awake(threads);
      ghost var rest, kept := threads, [];
      hide Stage, Orderly, Valid, SweptTo, Distinct, Remain, Awake;
      SweepStarts(ts, awake - ending, log);
      StartRemain();
      var i := 0;
      while i < |threads|
        invariant Valid() && i == |kept| && threads == kept + rest
        invariant forall t :: t in rest ==> t in ts
        invariant SweptTo(ts, awake - ending, rest, kept, old(log), log)
        invariant Remain(rest, awake)
        invariant forall t :: t in ts && t.sleeping ==> old(t.sleeping)
        decreases |rest|
      {
        SweepStep(ts, awake - ending, rest, kept, old(log), log);
        CutOut(kept, rest);
        NextRemain(rest, awake);
        assert rest[0] in rest;
        var gone := Visit(i, threads[i], threads[i] in ending, rest[1..], awake);
        if !gone {
          kept := kept + [rest[0]];
          i := i + 1;
        }
        rest := rest[1..];
      }
      SweepEnds(ts, awake - ending, rest, kept, old(log), log);
    }

    lemma StartRemain()
      requires Valid()
      ensures Remain(threads, Awake(threads))
    {
    }

    method StopAll()
      requires Valid()
      modifies this, threads`running, threads`stopped, threads`sleeping, threads`alive
      ensures Valid() && threads == [] && log == old(log) + Farewells(old(threads), {})
      ensures forall i :: 0 <= i < |log| ==> Stage(log, log[i].t) == 4 && !log[i].t.alive
    {
      hide SweptTo;
      ghost var ts := threads;
      SweepStarts(ts, {}, log);
      while threads != []
        invariant Valid() && (forall t :: t in threads ==> t in ts)
        invariant SweptTo(ts, {}, threads, [], old(log), log)
        decreases |threads|
      {
        SweepStep(ts, {}, threads, [], old(log), log);
        assert threads[0] in threads && threads[..0] + threads[1..] == threads[1..];
        Retire(0, threads[0]);
      }
      SweepEnds(ts, {}, [], [], old(log), log);
    }

    /** The first thread with that id, in the order of the set. */
    method FindByID(id: nat) returns (t: MsgThread?)
      requires Valid()
      ensures t != null ==> t.alive
      ensures t == null <==> forall u :: u in threads ==> u.id != id
      ensures t != null ==> exists i :: 0 <= i < |threads| && threads[i] == t && First(i, id)
    {
      var i := 0;
      while i < |threads|
        invariant i <= |threads| && forall j :: 0 <= j < i ==> threads[j].id != id
      {
        if threads[i].id == id {
          assert First(i, id);
          return threads[i];
        }
        i := i + 1;
      }
      return null;
    }

    ghost predicate First(i: nat, id: nat)
      requires i < |threads|
      reads this, threads
    {
      threads[i].id == id && forall j :: 0 <= j < i ==> threads[j].id != id
    }
  }

  ghost function Awake(ts: seq<MsgThread>): set<MsgThread>
    reads ts
  {
    set t | t in ts && t.running
  }

  /** These threads are all different, and those in `awake` are running. */
  ghost predicate Remain(ts: seq<MsgThread>, awake: set<MsgThread>)
    reads ts
  {
    Distinct(ts) && forall t :: t in ts ==> (t.running <==> t in awake)
  }

  lemma NextRemain(rest: seq<MsgThread>, awake: set<MsgThread>)
    requires rest != [] && Remain(rest, awake)
    ensures rest[0].running <==> rest[0] in awake
    ensures rest[0] !in rest[1..] && Remain(rest[1..], awake)
  {
  }

  /** A sweep has left `kept` of the threads it has passed, has `rest` before it, and has turned `before` into `log`. */
  ghost predicate SweptTo(ts: seq<MsgThread>, live: set<MsgThread>, rest: seq<MsgThread>, kept: seq<MsgThread>,
                          before: seq<Sign>, log: seq<Sign>)
  {
    kept + Kept(rest, live) == Kept(ts, live) && log + Farewells(rest, live) == before + Farewells(ts, live)
  }

  lemma SweepStarts(ts: seq<MsgThread>, live: set<MsgThread>, log: seq<Sign>)
    ensures SweptTo(ts, live, ts, [], log, log)
  {
  }

  lemma SweepStep(ts: seq<MsgThread>, live: set<MsgThread>, rest: seq<MsgThread>, kept: seq<MsgThread>,
                  before: seq<Sign>, log: seq<Sign>)
    requires rest != [] && SweptTo(ts, live, rest, kept, before, log)
    ensures rest[0] in live ==> SweptTo(ts, live, rest[1..], kept + [rest[0]], before, log)
    ensures rest[0] !in live ==> SweptTo(ts, live, rest[1..], kept, before, log + Farewell(rest[0]))
  {
    hide Farewell;
    var keep, sign := Kept(rest[1..], live), Farewells(rest[1..], live);
    if rest[0] in live {
      assert (kept + [rest[0]]) + keep == kept + ([rest[0]] + keep);
      assert [] + sign == sign;
    } else {
      assert (log + Farewell(rest[0])) + sign == log + (Farewell(rest[0]) + sign);
      assert [] + keep == keep;
    }
  }

  lemma SweepEnds(ts: seq<MsgThread>, live: set<MsgThread>, rest: seq<MsgThread>, kept: seq<MsgThread>,
                  before: seq<Sign>, log: seq<Sign>)
    requires rest == [] && SweptTo(ts, live, rest, kept, before, log)
    ensures kept + rest == kept == Kept(ts, live) && log == before + Farewells(ts, live)
  {
    assert kept + [] == kept && log + [] == log;
  }

  lemma CutOut<T>(front: seq<T>, rest: seq<T>)
    requires rest != []
    ensures (front + rest)[|front|] == rest[0]
    ensures (front + rest)[..|front|] + (front + rest)[|front| + 1..] == front + rest[1..]
    ensures front + rest == front + [rest[0]] + rest[1..]
  {
  }
}
