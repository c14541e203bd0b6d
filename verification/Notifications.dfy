/** A handler's bounded queue of notifications, filled by any thread and flushed by the handler's own. */
module Notifications {
  /** A queue size is an int, but is compared with the queue's length as a size_t. */
  type Limit = q: int | -0x8000_0000 <= q < 0x8000_0000

  const SIZE_T: nat := 0x1_0000_0000_0000_0000

  function AsSize(q: Limit): nat {
    if q < 0 then q + SIZE_T else q
  }

  /**
   Notifications are numbered in the order they are handed to the handler. The first three fields are the
   handler's own; the others record where notifications are, or have gone:
   - `inHand` belong to callers whose direct attempt failed and who have not got the lock yet
   - `pushed` and `left` are what ever entered and left the queue, `wire` and `dropped` what was written and
     what was thrown away, and `freed` what was deleted, each in order
   */
  datatype Notices = Notices(
    queue: seq<nat>, limit: Limit, disconnected: bool,
    offered: nat, inHand: multiset<nat>, pushed: seq<nat>, left: seq<nat>,
    wire: seq<nat>, dropped: seq<nat>, freed: seq<nat>)
  {
    /** A new notification is written directly if the client is connected and `written`, the answer of the socket. */
    function Offer(written: bool): Notices {
      if !disconnected && written then
        this.(offered := offered + 1, wire := wire + [offered], freed := freed + [offered])
      else
        this.(offered := offered + 1, inHand := inHand + multiset{offered})
    }

    /** The `k` oldest entries are thrown away. */
    function Drop(k: nat): Notices
      requires k <= |queue|
    {
      var gone := queue[..k];
      this.(queue := queue[k..], left := left + gone, dropped := dropped + gone, freed := freed + gone)
    }

    function Excess(): (k: nat)
      ensures k <= |queue|
    {
      if |queue| > AsSize(limit) then |queue| - AsSize(limit) else 0
    }

    function Push(id: nat): Notices {
      this.(queue := queue + [id], inHand := inHand - multiset{id}, pushed := pushed + [id])
    }

    function Enqueue(id: nat): Notices {
      Drop(Excess()).Push(id)
    }

    /** The oldest entry is written to the socket and leaves the queue. */
    function Pop(): Notices
      requires queue != []
    {
      this.(queue := queue[1..], left := left + [queue[0]], wire := wire + [queue[0]], freed := freed + [queue[0]])
    }
  }

  const INITIAL := Notices([], 0, false, 0, multiset{}, [], [], [], [], [])

  datatype Action =
    | Offer(written: bool)
    | Enqueue(id: nat)
    | Flush(written: bool)       // one turn of the flushing loop
    | Connection(lost: bool)
    | SetQueueSize(limit: Limit)
    | Destroy

  /** One atomic step; an action that is not possible changes nothing. */
  function Step(n: Notices, a: Action): Notices {
    match a
    case Offer(written) => n.Offer(written)
    case Enqueue(id) => if id in n.inHand then n.Enqueue(id) else n
    case Flush(written) => if !n.disconnected && written && n.queue != [] then n.Pop() else n
    case Connection(lost) => n.(disconnected := lost)
    case SetQueueSize(limit) => n.(limit := limit)
    case Destroy => n.Drop(|n.queue|)
  }

  function Run(n: Notices, actions: seq<Action>): Notices
    decreases |actions|
  {
    if actions == [] then n else Run(Step(n, actions[0]), actions[1..])
  }

  // Where every notification is.

  /** The notifications handed over so far, each once. */
  function Offered(n: nat): (m: multiset<nat>)
    ensures forall i: nat :: m[i] == if i < n then 1 else 0
  {
    if n == 0 then multiset{} else Offered(n - 1) + multiset{n - 1}
  }

  ghost predicate Conserved(n: Notices) {
    && Offered(n.offered) == n.inHand + multiset(n.queue) + multiset(n.wire) + multiset(n.dropped)
    && multiset(n.freed) == multiset(n.wire) + multiset(n.dropped)
    && n.pushed == n.left + n.queue
  }

  lemma OfferKeepsConserved(n: Notices, written: bool)
    requires Conserved(n)
    ensures Conserved(n.Offer(written))
  {
    hide Offered;
    var o, all := n.offered, n.inHand + multiset(n.queue) + multiset(n.wire) + multiset(n.dropped);
    OfferedNext(o);
    if !n.disconnected && written {
      AddLast(n.wire, o);
      AddLast(n.freed, o);
      assert all + multiset{o} == n.inHand + multiset(n.queue) + (multiset(n.wire) + multiset{o}) + multiset(n.dropped);
    } else {
      assert all + multiset{o} == (n.inHand + multiset{o}) + multiset(n.queue) + multiset(n.wire) + multiset(n.dropped);
    }
  }

  lemma OfferedNext(n: nat)
    ensures Offered(n + 1) == Offered(n) + multiset{n}
  {
  }

  lemma AddLast(s: seq<nat>, id: nat)
    ensures multiset(s + [id]) == multiset(s) + multiset{id}
  {
  }

  lemma DropKeepsConserved(n: Notices, k: nat)
    requires Conserved(n) && k <= |n.queue|
    ensures Conserved(n.Drop(k))
  {
    assert n.queue == n.queue[..k] + n.queue[k..];
  }

  lemma DropNone(n: Notices)
    ensures n.Drop(0) == n
  {
  }

  lemma DropOneMore(n: Notices, k: nat)
    requires k < |n.queue|
    ensures n.Drop(k).queue[1..] == n.Drop(k + 1).queue
    ensures n.Drop(k).limit == n.Drop(k + 1).limit && n.Drop(k).disconnected == n.Drop(k + 1).disconnected
  {
  }

  lemma DropMoves(n: Notices, k: nat)
    requires k <= |n.queue|
    ensures n.Drop(k).inHand == n.inHand && n.Drop(k).queue == n.queue[k..]
  {
  }

  lemma PushKeepsConserved(n: Notices, id: nat)
    requires Conserved(n) && id in n.inHand
    ensures Conserved(n.Push(id))
  {
    assert n.inHand == n.inHand - multiset{id} + multiset{id};
  }

  lemma PopKeepsConserved(n: Notices)
    requires Conserved(n) && n.queue != []
    ensures Conserved(n.Pop())
  {
    assert n.queue == [n.queue[0]] + n.queue[1..];
  }

  lemma SettingsKeepConserved(n: Notices, limit: Limit, disconnected: bool)
    requires Conserved(n)
    ensures Conserved(n.(limit := limit, disconnected := disconnected))
  {
  }

  lemma StepKeepsConserved(n: Notices, a: Action)
    requires Conserved(n)
    ensures Conserved(Step(n, a))
  {
    hide Conserved, Notices.Offer, Notices.Drop, Notices.Push, Notices.Pop;
    match a
    case Offer(written) => OfferKeepsConserved(n, written);
    case Enqueue(id) =>
      if id in n.inHand {
        DropKeepsConserved(n, n.Excess());
        assert n.Drop(n.Excess()).inHand == n.inHand by { DropMoves(n, n.Excess()); }
        PushKeepsConserved(n.Drop(n.Excess()), id);
      }
    case Flush(written) =>
      if !n.disconnected && written && n.queue != [] {
        PopKeepsConserved(n);
      }
    case Connection(lost) => SettingsKeepConserved(n, n.limit, lost);
    case SetQueueSize(limit) => SettingsKeepConserved(n, limit, n.disconnected);
    case Destroy => DropKeepsConserved(n, |n.queue|);
  }

  lemma {:induction false} RunKeepsConserved(n: Notices, actions: seq<Action>)
    requires Conserved(n)
    ensures Conserved(Run(n, actions))
    decreases |actions|
  {
    if actions != [] {
      StepKeepsConserved(n, actions[0]);
      RunKeepsConserved(Step(n, actions[0]), actions[1..]);
    }
  }

  /**
   However threads interleave, a notification is in exactly one place: with its caller, queued, on the wire
   or dropped. It is deleted, once, if and only if it is neither with its caller nor queued.
   */
  lemma OneFateEach(actions: seq<Action>, id: nat)
    ensures var n := Run(INITIAL, actions);
            && n.inHand[id] + multiset(n.queue)[id] + multiset(n.wire)[id] + multiset(n.dropped)[id]
               == (if id < n.offered then 1 else 0)
            && multiset(n.freed)[id] == (if id < n.offered && id !in n.inHand && id !in n.queue then 1 else 0)
  {
    RunKeepsConserved(INITIAL, actions);
    var n := Run(INITIAL, actions);
    assert Offered(n.offered)[id] == (n.inHand + multiset(n.queue) + multiset(n.wire) + multiset(n.dropped))[id];
  }

  /** The queue holds the latest entries, in order of entry: none is skipped, and none leaves before an older one. */
  lemma QueueIsLatest(actions: seq<Action>)
    ensures var n := Run(INITIAL, actions);
            && |n.queue| <= |n.pushed|
            && n.queue == n.pushed[|n.pushed| - |n.queue|..] && n.left == n.pushed[..|n.pushed| - |n.queue|]
  {
    RunKeepsConserved(INITIAL, actions);
  }

  // In which order notifications are written.

  predicate Increasing(s: seq<nat>) {
    forall i, j :: 0 <= i < j < |s| ==> s[i] < s[j]
  }

  /** What was written is older than what is queued, and that is older than what callers still hold. */
  ghost predicate Ordered(n: Notices) {
    var s := n.wire + n.queue;
    && Increasing(s)
    && (forall i :: 0 <= i < |s| ==> s[i] < n.offered)
    && (forall id :: id in n.inHand ==> n.inHand[id] == 1 && id < n.offered && forall i :: 0 <= i < |s| ==> s[i] < id)
  }

  /** A notification is written directly past one that is waiting, or queued past an older one. */
  ghost predicate Overtakes(n: Notices, a: Action) {
    match a
    case Offer(written) => written && !n.disconnected && (n.queue != [] || n.inHand != multiset{})
    case Enqueue(id) => id in n.inHand && exists older :: older in n.inHand && older < id
    case _ => false
  }

  lemma DropKeepsOrdered(n: Notices, k: nat)
    requires Ordered(n) && k <= |n.queue|
    ensures Ordered(n.Drop(k))
  {
    var s, t := n.wire + n.queue, n.wire + n.queue[k..];
    forall i | 0 <= i < |t|
      ensures t[i] == s[if i < |n.wire| then i else i + k]
    {
    }
  }

  lemma OfferKeepsOrderedIff(n: Notices, written: bool)
    requires Ordered(n)
    ensures Ordered(n.Offer(written)) <==> !Overtakes(n, Offer(written))
  {
    var s, m := n.wire + n.queue, n.Offer(written);
    if !n.disconnected && written {
      var t := m.wire + m.queue;
      if n.queue != [] {
        assert t[|n.wire|] == n.offered && t[|n.wire| + 1] == s[|n.wire|];
      } else {
        assert t == s + [n.offered];
        assert t[|s|] == n.offered;
        if n.inHand != multiset{} {
          var id :| id in n.inHand;
        }
      }
    } else {
      assert m.wire + m.queue == s;
    }
  }

  lemma PushKeepsOrderedIff(n: Notices, id: nat)
    requires Ordered(n) && id in n.inHand
    ensures Ordered(n.Push(id)) <==> !exists older :: older in n.inHand && older < id
  {
    var s, m := n.wire + n.queue, n.Push(id);
    var t := m.wire + m.queue;
    assert t == s + [id];
    assert forall x :: x in m.inHand <==> x in n.inHand && x != id;
    if older :| older in n.inHand && older < id {
      assert older in m.inHand && t[|s|] == id;
    }
  }

  /** The order is kept, step by step, if and only if nothing overtakes. */
  lemma StepKeepsOrderedIff(n: Notices, a: Action)
    requires Ordered(n)
    ensures Ordered(Step(n, a)) <==> !Overtakes(n, a)
  {
    hide Ordered;
    match a
    case Offer(written) => OfferKeepsOrderedIff(n, written);
    case Enqueue(id) =>
      if id in n.inHand {
        DropKeepsOrdered(n, n.Excess());
        PushKeepsOrderedIff(n.Drop(n.Excess()), id);
      }
    case Flush(written) =>
      if !n.disconnected && written && n.queue != [] {
        PopKeepsOrdered(n);
      }
    case Connection(lost) => SettingsKeepOrdered(n, n.limit, lost);
    case SetQueueSize(limit) => SettingsKeepOrdered(n, limit, n.disconnected);
    case Destroy => DropKeepsOrdered(n, |n.queue|);
  }

  lemma PopKeepsOrdered(n: Notices)
    requires Ordered(n) && n.queue != []
    ensures Ordered(n.Pop())
  {
    assert n.Pop().wire + n.Pop().queue == n.wire + n.queue;
  }

  lemma SettingsKeepOrdered(n: Notices, limit: Limit, disconnected: bool)
    requires Ordered(n)
    ensures Ordered(n.(limit := limit, disconnected := disconnected))
  {
  }

  ghost predicate NoneOvertakes(n: Notices, actions: seq<Action>)
    decreases |actions|
  {
    actions == [] || (!Overtakes(n, actions[0]) && NoneOvertakes(Step(n, actions[0]), actions[1..]))
  }

  lemma {:induction false} RunKeepsOrdered(n: Notices, actions: seq<Action>)
    requires Ordered(n) && NoneOvertakes(n, actions)
    ensures Ordered(Run(n, actions))
    decreases |actions|
  {
    if actions != [] {
      StepKeepsOrderedIff(n, actions[0]);
      RunKeepsOrdered(Step(n, actions[0]), actions[1..]);
    }
  }

  /** Notifications are written in the order they were handed over, if none overtakes another. */
  lemma WrittenInOrder(actions: seq<Action>)
    requires NoneOvertakes(INITIAL, actions)
    ensures Increasing(Run(INITIAL, actions).wire)
  {
    RunKeepsOrdered(INITIAL, actions);
    var n := Run(INITIAL, actions);
    var s := n.wire + n.queue;
    forall i, j | 0 <= i < j < |n.wire| ensures n.wire[i] < n.wire[j] {
      assert s[i] == n.wire[i] && s[j] == n.wire[j];
    }
  }

  /**
   They do overtake: a client that is back gets a new notification before the one that was queued while it was gone.
   */
  lemma NewerIsWrittenFirst()
    ensures var actions := [SetQueueSize(5), Connection(true), Offer(false), Enqueue(0),
                            Connection(false), Offer(true), Flush(true)];
            Run(INITIAL, actions).wire == [1, 0]
  {
    var n1 := Step(INITIAL, SetQueueSize(5));
    var n2 := Step(n1, Connection(true));
    var n3 := Step(n2, Offer(false));
    var n4 := Step(n3, Enqueue(0));
    var n5 := Step(n4, Connection(false));
    var n6 := Step(n5, Offer(true));
    var n7 := Step(n6, Flush(true));
    RunOfSeven(INITIAL, SetQueueSize(5), Connection(true), Offer(false), Enqueue(0), Connection(false), Offer(true),
               Flush(true));
    assert n4.queue == [0] && n6.wire == [1] && n7.wire == [1, 0];
  }

  lemma RunOfSeven(n: Notices, a: Action, b: Action, c: Action, d: Action, e: Action, f: Action, g: Action)
    ensures Run(n, [a, b, c, d, e, f, g]) == Step(Step(Step(Step(Step(Step(Step(n, a), b), c), d), e), f), g)
  {
    hide Step;
    RunAppends(n, [a, b], [c, d, e, f, g]);
    TwoSteps(n, a, b);
    var m := Step(Step(n, a), b);
    RunAppends(m, [c, d], [e, f, g]);
    TwoSteps(m, c, d);
    var o := Step(Step(m, c), d);
    RunAppends(o, [e, f], [g]);
    TwoSteps(o, e, f);
    assert [a, b] + [c, d, e, f, g] == [a, b, c, d, e, f, g];
    assert [c, d] + [e, f, g] == [c, d, e, f, g] && [e, f] + [g] == [e, f, g];
    assert Run(Step(Step(o, e), f), [g]) == Step(Step(Step(o, e), f), g);
  }

  // How long the queue gets.

  predicate LimitsUpTo(actions: seq<Action>, bound: nat) {
    forall a :: a in actions && a.SetQueueSize? ==> AsSize(a.limit) <= bound
  }

  lemma {:induction false} QueueIsBounded(n: Notices, actions: seq<Action>, bound: nat)
    requires AsSize(n.limit) <= bound && LimitsUpTo(actions, bound) && |n.queue| <= bound + 1
    ensures |Run(n, actions).queue| <= bound + 1
    decreases |actions|
  {
    if actions != [] {
      assert actions[0] in actions;
      QueueIsBounded(Step(n, actions[0]), actions[1..], bound);
    }
  }

  /**
   A size that is not negative is the number of entries that stay when one is added; a negative one counts as a huge
   number, so that nothing is ever dropped.
   */
  lemma ExcessOverSize(n: Notices)
    ensures n.limit >= 0 ==> n.Excess() == if |n.queue| > n.limit then |n.queue| - n.limit else 0
    ensures n.limit < 0 && |n.queue| < 0xFFFF_FFFF_8000_0000 ==> n.Excess() == 0
  {
  }

  /** A queue may hold one entry more than its size: it keeps to the size if and only if it was not full before. */
  lemma SizeIsKeptIff(n: Notices, id: nat)
    ensures |n.Enqueue(id).queue| == (if |n.queue| < AsSize(n.limit) then |n.queue| else AsSize(n.limit)) + 1
    ensures |n.Enqueue(id).queue| <= AsSize(n.limit) <==> |n.queue| < AsSize(n.limit)
  {
  }

  /** A size that is set drops nothing yet; the next entry that is queued finds at most that many of the latest left. */
  lemma SizeTakesEffect(n: Notices, size: Limit, id: nat)
    ensures var m := Step(n, SetQueueSize(size));
            && m.queue == n.queue
            && (size >= 0 ==>
                  m.Enqueue(id).queue == n.queue[if |n.queue| < size then 0 else |n.queue| - size..] + [id])
  {
  }

  /** `count` notifications that find the client gone. */
  function Queued(count: nat): seq<Action> {
    if count == 0 then [] else Queued(count - 1) + [Offer(false), Enqueue(count - 1)]
  }

  lemma {:induction false} RunAppends(n: Notices, first: seq<Action>, second: seq<Action>)
    ensures Run(n, first + second) == Run(Run(n, first), second)
    decreases |first|
  {
    if first == [] {
      assert first + second == second;
    } else {
      assert (first + second)[1..] == first[1..] + second;
      RunAppends(Step(n, first[0]), first[1..], second);
    }
  }

  lemma TwoSteps(n: Notices, a: Action, b: Action)
    ensures Run(n, [a, b]) == Step(Step(n, a), b)
  {
    assert [a, b][1..] == [b] && [b][1..] == [];
    assert Run(Step(n, a), [b]) == Step(Step(n, a), b);
  }

  /** The bound is reached for every size: as many entries as fit, and one. */
  lemma {:induction false} BoundIsReached(n: Notices, count: nat)
    requires n.queue == [] && n.inHand == multiset{} && n.offered == 0 && count <= AsSize(n.limit) + 1
    ensures var m := Run(n, Queued(count));
            |m.queue| == count && m.limit == n.limit && m.inHand == multiset{} && m.offered == count
  {
    if count > 0 {
      BoundIsReached(n, count - 1);
      var m := Run(n, Queued(count - 1));
      RunAppends(n, Queued(count - 1), [Offer(false), Enqueue(count - 1)]);
      TwoSteps(m, Offer(false), Enqueue(count - 1));
      assert m.inHand + multiset{count - 1} - multiset{count - 1} == multiset{};
    }
  }

  // The flushing loop.

  function Successes(results: seq<bool>): (k: nat)
    ensures k <= |results|
  {
    if results == [] then 0 else (if results[0] then 1 else 0) + Successes(results[1..])
  }

  lemma {:induction false} SuccessesCount(results: seq<bool>)
    ensures Successes(results) == multiset(results)[true]
  {
    if results != [] {
      SuccessesCount(results[1..]);
      assert results == [results[0]] + results[1..];
    }
  }

  /** The `k` oldest entries are written. */
  function Popped(n: Notices, k: nat): (r: Notices)
    requires k <= |n.queue|
    ensures r.queue == n.queue[k..] && r.wire == n.wire + n.queue[..k]
    ensures k == 0 ==> r == n
  {
    var gone := n.queue[..k];
    n.(queue := n.queue[k..], left := n.left + gone, wire := n.wire + gone, freed := n.freed + gone)
  }

  lemma PoppedOnce(n: Notices, k: nat)
    requires k < |n.queue|
    ensures Popped(n, k).Pop() == Popped(n, k + 1)
  {
    assert n.queue[k..][1..] == n.queue[k + 1..];
    assert n.queue[..k + 1] == n.queue[..k] + [n.queue[k]];
  }

  lemma {:induction false} PoppedKeepsConserved(n: Notices, k: nat)
    requires Conserved(n) && k <= |n.queue|
    ensures Conserved(Popped(n, k))
  {
    hide Conserved;
    if k > 0 {
      PoppedKeepsConserved(n, k - 1);
      PoppedOnce(n, k - 1);
      PopKeepsConserved(Popped(n, k - 1));
    }
  }

  /** One attempt after another. */
  function Attempts(results: seq<bool>): (actions: seq<Action>)
    ensures |actions| == |results|
  {
    seq(|results|, i requires 0 <= i < |results| => Flush(results[i]))
  }

  /** As many of the oldest entries are written as there are successful attempts, if the client is there. */
  lemma {:induction false} AttemptsWriteOldest(n: Notices, results: seq<bool>)
    ensures var k := multiset(results)[true];
            Run(n, Attempts(results)) == if n.disconnected then n
                                         else Popped(n, if k < |n.queue| then k else |n.queue|)
    decreases |results|
  {
    SuccessesCount(results);
    hide Popped;
    if results != [] {
      var m := Step(n, Flush(results[0]));
      assert Attempts(results)[1..] == Attempts(results[1..]);
      AttemptsWriteOldest(m, results[1..]);
      SuccessesCount(results[1..]);
      hide Run;
      if !n.disconnected && results[0] && n.queue != [] {
        var k := Successes(results[1..]);
        PoppedFirst(n, if k < |n.queue| - 1 then k else |n.queue| - 1);
      } else if n.queue == [] {
        PoppedNone(n);
      }
    } else {
      PoppedNone(n);
    }
  }

  lemma PoppedNone(n: Notices)
    ensures Popped(n, 0) == n
  {
  }

  lemma PoppedFirst(n: Notices, k: nat)
    requires k < |n.queue|
    ensures Popped(n.Pop(), k) == Popped(n, k + 1)
  {
    assert n.queue[1..][k..] == n.queue[k + 1..];
    assert [n.queue[0]] + n.queue[1..][..k] == n.queue[..k + 1];
  }

  /** Nothing is written as long as the client is gone. */
  lemma {:induction false} NothingIsWrittenMeanwhile(n: Notices, actions: seq<Action>)
    requires n.disconnected && forall a | a in actions && a.Connection? :: a.lost
    ensures Run(n, actions).wire == n.wire && Run(n, actions).disconnected
    decreases |actions|
  {
    if actions != [] {
      assert actions[0] in actions;
      NothingIsWrittenMeanwhile(Step(n, actions[0]), actions[1..]);
    }
  }

  /** What is queued when the client is back goes out then, oldest first, one entry for each successful attempt. */
  lemma BackAgain(n: Notices, meanwhile: seq<Action>, results: seq<bool>)
    requires forall a | a in meanwhile && a.Connection? :: a.lost
    ensures var gone := Run(Step(n, Connection(true)), meanwhile);
            var back := Run(Step(gone, Connection(false)), Attempts(results));
            var k := multiset(results)[true];
            && gone.wire == n.wire
            && back.wire == n.wire + gone.queue[..if k < |gone.queue| then k else |gone.queue|]
  {
    NothingIsWrittenMeanwhile(Step(n, Connection(true)), meanwhile);
    hide Run;
    AttemptsWriteOldest(Step(Run(Step(n, Connection(true)), meanwhile), Connection(false)), results);
  }

  /** What is queued in the end is deleted unsent. */
  lemma DestroyedUnsent(n: Notices)
    ensures var m := Step(n, Destroy);
            m.queue == [] && m.wire == n.wire && m.dropped == n.dropped + n.queue && m.inHand == n.inHand
  {
  }

  class MsgHandler {
    var queue: seq<nat>
    var queuesize: Limit
    var disconnected: bool
    ghost var past: Notices

    ghost function View(): Notices
      reads this
    {
      past.(queue := queue, limit := queuesize, disconnected := disconnected)
    }

    ghost predicate Valid()
      reads this
    {
      Conserved(View())
    }

    constructor ()
      ensures Valid() && View() == INITIAL
    {
      queue, queuesize, disconnected := [], 0, false;
      past := INITIAL;
    }

    method SetQueueSize(q: Limit)
      requires Valid()
      modifies this`queuesize
      ensures Valid() && View() == Step(old(View()), Action.SetQueueSize(q))
    {
      queuesize := q;
    }

    method SetDisconnected(lost: bool)
      requires Valid()
      modifies this`disconnected
      ensures Valid() && View() == Step(old(View()), Action.Connection(lost))
    {
      disconnected := lost;
    }

    /** `written` is what writing the packet answers, if it comes to that. */
    method QueueNotification(packet: nat, written: bool)
      requires Valid() && packet == View().offered
      modifies this
      ensures Valid()
      ensures View() == if !old(disconnected) && written then old(View()).Offer(true)
                        else old(View()).Offer(false).Enqueue(packet)
    {
      hide Conserved, Notices.Drop, Offered;
      ghost var before := View();
      OfferKeepsConserved(before, written);
      past := before.Offer(written);
      if !disconnected && written {
        return;
      }
      ghost var asked := View();
      Limited();
      DropMoves(asked, asked.Excess());
      ghost var trimmed := View();
      PushKeepsConserved(trimmed, packet);
      past := trimmed.Push(packet);
      queue := queue + [packet];
    }

    /** Takes the oldest entry out and deletes it. */
    method DeleteFront(ghost before: Notices, ghost k: nat)
      requires k < |before.queue| && View() == before.Drop(k)
      modifies this`queue, this`past
      ensures View() == before.Drop(k + 1) && |queue| == |old(queue)| - 1
    {
      DropOneMore(before, k);
      queue := queue[1..];
      past := before.Drop(k + 1);
    }

    /** Drops the oldest entries until the queue is no longer than its size. */
    method Limited()
      requires Valid()
      modifies this`queue, this`past
      ensures Valid() && View() == old(View()).Drop(old(View()).Excess())
    {
      hide Conserved, Notices.Drop;
      ghost var before := View();
      ghost var k := 0;
      DropNone(before);
      while |queue| > AsSize(queuesize)
        invariant k <= before.Excess() && View() == before.Drop(k) && |queue| == |before.queue| - k
        decreases |queue|
      {
        DeleteFront(before, k);
        k := k + 1;
      }
      DropKeepsConserved(before, k);
    }

    /** The destructor: pending notifications are deleted unsent. */
    method Destroy()
      requires Valid()
      modifies this`queue, this`past
      ensures Valid() && View() == Step(old(View()), Action.Destroy)
    {
      hide Conserved, Notices.Drop;
      ghost var before := View();
      ghost var k := 0;
      DropNone(before);
      while queue != []
        invariant k <= |before.queue| && View() == before.Drop(k) && |queue| == |before.queue| - k
        decreases |queue|
      {
        DeleteFront(before, k);
        k := k + 1;
      }
      DropKeepsConserved(before, k);
    }

    /**
     Writes pending notifications, oldest first. `results` is what the socket answers to one attempt after
     another; a script that runs out means that the handler was stopped. A failed attempt is repeated.
     */
    method Flush(results: seq<bool>)
      requires Valid()
      modifies this`queue, this`past
      ensures Valid() && View() == Run(old(View()), Attempts(results))
      ensures disconnected ==> View() == old(View())
      ensures !disconnected ==> var k := multiset(results)[true];
                                View() == Popped(old(View()), if k < |old(queue)| then k else |old(queue)|)
    {
      hide Conserved, Run, Popped;
      ghost var before := View();
      AttemptsWriteOldest(before, results);
      SuccessesCount(results);
      PoppedNone(before);
      ghost var k := 0;
      var i := 0;
      while i < |results| && !disconnected && queue != []
        invariant i <= |results| && k <= |before.queue| && View() == Popped(before, k)
        invariant disconnected ==> i == 0 && k == 0
        invariant k + Successes(results[i..]) == Successes(results)
      {
        if results[i] {
          PoppedOnce(before, k);
          queue := queue[1..];
          k := k + 1;
          past := Popped(before, k);
        }
        assert results[i..][1..] == results[i + 1..];
        i := i + 1;
      }
      PoppedKeepsConserved(before, k);
    }
  }
}
