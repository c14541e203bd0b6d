/**
 One caller at a time waits for the response to its request while a receiver thread hands out the
 packets that arrive. The two share a map from request keys to conditions; every step below is one
 critical section or one access to the shared objects, and the steps of both sides interleave freely.
 */
module Sessions {
  import opened Bytes
  import opened Options
  import opened Packets

  // The key of a request and of its response.

  function Uid(p: Packet): nat {
    Field(p.header, UID_POS, 4)
  }

  function MessageType(p: Packet): nat {
    Field(p.header, TYPE_POS, 2)
  }

  /** The serial number in the high and the type in the low half of 64 bits. */
  function Key(p: Packet): nat {
    Uid(p) * WORD + MessageType(p)
  }

  lemma KeyInjective(p: Packet, q: Packet)
    ensures Key(p) == Key(q) <==> Uid(p) == Uid(q) && MessageType(p) == MessageType(q)
  {
    TypeIsSmall(p);
    TypeIsSmall(q);
    if Key(p) == Key(q) {
      assert Key(p) / WORD == Uid(p) && Key(q) / WORD == Uid(q);
    }
  }

  lemma TypeIsSmall(p: Packet)
    ensures MessageType(p) < 0x1_0000
  {
    assert Pow256(2) == 0x1_0000;
  }

  /** A request carries the type and the serial number that it was constructed with, and its copy the same. */
  lemma NewRequestIsKeyed(msgid: nat, messageType: nat, uid: Word)
    requires msgid < 0x1_0000 && messageType < 0x1_0000
    ensures var p := New(msgid, messageType, uid); Uid(p) == uid && MessageType(p) == messageType
    ensures Key(New(msgid, messageType, uid)) == uid * 0x1_0000_0000 + messageType
  {
    NewFields(msgid, messageType, uid);
  }

  lemma CopyIsKeyed(p: Packet, q: Packet)
    ensures var c := p.CopyOf(q); Uid(c) == Uid(q) && MessageType(c) == MessageType(q) && Key(c) == Key(q)
  {
    CopyIsTheOther(p, q);
  }

  // States.

  /** Requests are numbered as they are made; a condition belongs to one. */
  datatype Condition = Condition(ticket: nat, response: Option<Packet>, signaled: bool)

  datatype Caller =
    | Idle                          // nobody holds the transmit lock
    | Entered(request: Packet)
    | Registered(id: nat, request: Packet)          // in the map, not yet sent
    | Waiting(id: nat, request: Packet)
    | Leaving(id: nat, request: Packet, ok: bool)   // the wait is over, the entry still to be erased
  {
    predicate Registers() {
      Registered? || Waiting? || Leaving?
    }
  }

  datatype Receiver =
    | Reading
    | Holding(p: Packet)            // read, but the connection may be lost by now
    | Checked(p: Packet)
    | Claimed(p: Packet, id: nat, ticket: nat)   // the entry is erased, the condition not yet touched
    | Copied(p: Packet, id: nat, ticket: nat)    // the response is written, the condition not yet signalled
    | Unclaimed(p: Packet)
    | Ending                        // out of the loop, the map not yet cleared
    | Ended
    | Joined                        // and waited for; only then another one is started
  {
    predicate InHand() {
      Checked? || Claimed? || Copied? || Unclaimed?
    }

    predicate Claims() {
      Claimed? || Copied?
    }
  }

  datatype Target = Waiter(ticket: nat) | Notification

  datatype Result = Result(ticket: nat, ok: bool, response: Option<Packet>)

  datatype Session = Session(
    usable: bool,                   // open and not aborting
    lost: bool,
    queue: map<nat, nat>,           // key to the address of a condition
    conditions: map<nat, Condition>,   // the conditions in memory, by address; addresses are used again
    caller: Caller,
    receiver: Receiver,
    requests: seq<Packet>,          // all requests ever made, by ticket
    received: seq<Packet>,          // packets taken up while the connection was not lost
    dispatched: seq<Target>,        // where they went
    results: seq<Result>,
    dangling: bool)                 // a condition was touched after it was deleted
  {
    /** The condition that the receiver has claimed is still the one at its address. */
    predicate Live() {
      receiver.Claims() ==> receiver.id in conditions && conditions[receiver.id].ticket == receiver.ticket
    }
  }

  const INITIAL: Session := Session(false, false, map[], map[], Idle, Joined, [], [], [], [], false)

  // Steps.

  datatype Action =
    // the connection, at any time
    | Open | SetUsable(usable: bool) | Lose | Join
    // TransmitMessage
    | Enter(request: Packet) | Register(id: nat) | SendOk | SendFails | Wake | TimeOut | Retire
    // Run
    | Read(p: Packet) | Check | Find | CopyResponse | Signal | Notify | End | Clear
  {
    /** The steps of the receiver thread. */
    predicate OfReceiver() {
      Read? || Check? || Find? || CopyResponse? || Signal? || Notify? || End? || Clear?
    }
  }

  predicate Enabled(s: Session, a: Action) {
    match a
    case Open => s.caller.Idle?
    case SetUsable(_) => true
    case Lose => true
    case Join => s.caller.Idle? && s.receiver.Ended?
    case Enter(_) => s.caller.Idle? && (s.usable || s.lost)
    case Register(id) => s.caller.Entered? && id !in s.conditions
    case SendOk => s.caller.Registered?
    case SendFails => s.caller.Registered?
    case Wake => s.caller.Waiting? && s.caller.id in s.conditions && s.conditions[s.caller.id].signaled
    case TimeOut => s.caller.Waiting? && s.caller.id in s.conditions && !s.conditions[s.caller.id].signaled
    case Retire => s.caller.Leaving? && s.caller.id in s.conditions
    case Read(_) => s.receiver.Reading?
    case Check => s.receiver.Holding?
    case Find => s.receiver.Checked?
    case CopyResponse => s.receiver.Claimed?
    case Signal => s.receiver.Copied?
    case Notify => s.receiver.Unclaimed?
    case End => s.receiver.Reading? && (s.lost || s.queue == map[])
    case Clear => s.receiver.Ending?
  }

  /** The number of the latest request. */
  function Ticket(s: Session): nat {
    if s.requests == [] then 0 else |s.requests| - 1
  }

  /** Erase the caller's entry, delete its condition, return. */
  function Left(s: Session, ok: bool, response: Option<Packet>): Session
    requires s.caller.Registers()
  {
    s.(queue := s.queue - {Key(s.caller.request)},
       conditions := s.conditions - {s.caller.id},
       caller := Idle,
       results := s.results + [Result(Ticket(s), ok, response)])
  }

  function Step(s: Session, a: Action): Session
    requires Enabled(s, a)
  {
    match a
    case Open => s.(usable := true, lost := false, receiver := if s.receiver.Joined? then Reading else s.receiver)
    case SetUsable(b) => s.(usable := b)
    case Lose => s.(lost := true)
    case Join => s.(receiver := Joined)
    case Enter(request) => s.(caller := Entered(request))
    case Register(id) =>
      s.(conditions := s.conditions[id := Condition(|s.requests|, None, false)],
         queue := s.queue[Key(s.caller.request) := id],
         requests := s.requests + [s.caller.request],
         caller := Registered(id, s.caller.request))
    case SendOk => s.(caller := Waiting(s.caller.id, s.caller.request))
    case SendFails => Left(s, false, None)
    case Wake =>
      var id := s.caller.id;
      s.(conditions := s.conditions[id := s.conditions[id].(signaled := false)],
         caller := Leaving(id, s.caller.request, true))
    case TimeOut => s.(caller := Leaving(s.caller.id, s.caller.request, false))
    case Retire => Left(s, s.caller.ok, if s.caller.ok then s.conditions[s.caller.id].response else None)
    case Read(p) => s.(receiver := Holding(p))
    case Check =>
      if s.lost then s.(receiver := Ending)
      else s.(receiver := Checked(s.receiver.p), received := s.received + [s.receiver.p])
    case Find =>
      var p := s.receiver.p;
      if Key(p) in s.queue then
        var id := s.queue[Key(p)];
        var ticket := if id in s.conditions then s.conditions[id].ticket else 0;
        s.(receiver := Claimed(p, id, ticket), queue := s.queue - {Key(p)})
      else s.(receiver := Unclaimed(p))
    case CopyResponse =>
      var (p, id) := (s.receiver.p, s.receiver.id);
      var t := s.(receiver := Copied(p, id, s.receiver.ticket), dangling := s.dangling || !s.Live());
      if id in s.conditions then t.(conditions := s.conditions[id := s.conditions[id].(response := Some(p))]) else t
    case Signal =>
      var id := s.receiver.id;
      var t := s.(receiver := Reading, dispatched := s.dispatched + [Waiter(s.receiver.ticket)],
                  dangling := s.dangling || !s.Live());
      if id in s.conditions then t.(conditions := s.conditions[id := s.conditions[id].(signaled := true)]) else t
    case Notify => s.(receiver := Reading, dispatched := s.dispatched + [Notification])
    case End => s.(receiver := Ending)
    case Clear => s.(receiver := Ended, queue := map[])
  }

  // The invariant.

  /** The i-th packet went to the request with this ticket. */
  ghost predicate WentTo(s: Session, i: nat, ticket: nat, p: Packet) {
    i < |s.dispatched| && i < |s.received| && s.dispatched[i] == Waiter(ticket) && s.received[i] == p
  }

  /** A delivered response is a received packet that went to this request and to no other. */
  ghost predicate Delivered(s: Session, ticket: nat, response: Option<Packet>) {
    response.Some? && exists i :: WentTo(s, i, ticket, response.value)
  }

  /** The map holds nothing but the entry of the one request under way, under its own key. */
  ghost predicate MapInv(s: Session) {
    if s.caller.Registers() then
      && s.requests != [] && s.requests[Ticket(s)] == s.caller.request
      && s.conditions.Keys == {s.caller.id} && s.conditions[s.caller.id].ticket == Ticket(s)
      && (s.queue == map[] || s.queue == map[Key(s.caller.request) := s.caller.id])
    else
      s.queue == map[] && s.conditions == map[]
  }

  /** A claimed condition was registered under the packet's key. */
  ghost predicate TicketInv(s: Session) {
    s.receiver.Claims() ==>
      s.receiver.ticket < |s.requests| && Key(s.receiver.p) == Key(s.requests[s.receiver.ticket])
  }

  /** It is still there, out of the map and not yet signalled, and nothing deleted was touched. */
  ghost predicate ClaimInv(s: Session) {
    && !s.dangling && s.Live()
    && (s.receiver.Claims() ==>
          && s.queue == map[]
          && !s.conditions[s.receiver.id].signaled
          && !(s.caller.Leaving? && s.caller.ok)
          && (s.receiver.Copied? ==> s.conditions[s.receiver.id].response == Some(s.receiver.p)))
  }

  /** Packets leave the receiver's hand in the order they came. */
  ghost predicate OrderInv(s: Session) {
    if s.receiver.InHand() then |s.received| == |s.dispatched| + 1 && s.received[|s.dispatched|] == s.receiver.p
    else |s.received| == |s.dispatched|
  }

  /** A packet that went to a request has that request's key. */
  ghost predicate MatchInv(s: Session) {
    |s.dispatched| <= |s.received| &&
    forall i | 0 <= i < |s.dispatched| && s.dispatched[i].Waiter? ::
      s.dispatched[i].ticket < |s.requests| && Key(s.received[i]) == Key(s.requests[s.dispatched[i].ticket])
  }

  /** No request is handed two packets, and requests are answered in the order they were made. */
  ghost predicate OnceInv(s: Session) {
    && (forall i, j | 0 <= i < j < |s.dispatched| && s.dispatched[i].Waiter? && s.dispatched[j].Waiter? ::
          s.dispatched[i].ticket < s.dispatched[j].ticket)
    && (forall i | 0 <= i < |s.dispatched| && s.dispatched[i].Waiter? ::
          && (s.receiver.Claims() ==> s.dispatched[i].ticket < s.receiver.ticket)
          && (s.queue != map[] ==> s.dispatched[i].ticket < Ticket(s)))
  }

  ghost predicate ResponseInv(s: Session) {
    && (forall id | id in s.conditions && s.conditions[id].signaled ::
          Delivered(s, s.conditions[id].ticket, s.conditions[id].response) && s.queue == map[])
    && (s.caller.Leaving? && s.caller.ok && s.caller.id in s.conditions ==>
          Delivered(s, Ticket(s), s.conditions[s.caller.id].response) && s.queue == map[])
    && (forall r | r in s.results :: r.ok ==> Delivered(s, r.ticket, r.response))
  }

  ghost predicate Inv(s: Session) {
    MapInv(s) && TicketInv(s) && ClaimInv(s) && OrderInv(s) && MatchInv(s) && OnceInv(s) && ResponseInv(s)
  }

  /** The caller deletes its condition while the receiver has claimed it but not yet signalled it. */
  predicate Premature(s: Session, a: Action) {
    && (a.Retire? || a.SendFails?) && s.caller.Registers()
    && s.receiver.Claims() && s.receiver.id == s.caller.id && s.Live()
  }

  lemma EntryErased(key: nat, id: nat, other: nat)
    ensures map[key := id] - {other} == if other == key then map[] else map[key := id]
  {
  }

  // What holds whatever happens.

  lemma ReceiverKeepsMap(s: Session, a: Action)
    requires MapInv(s) && Enabled(s, a) && a.OfReceiver()
    ensures MapInv(Step(s, a))
  {
    hide Key;
    if a.Find? && s.queue != map[] {
      EntryErased(Key(s.caller.request), s.caller.id, Key(s.receiver.p));
    } else if a.CopyResponse? || a.Signal? {
      assert s.receiver.id in s.conditions ==> Step(s, a).conditions.Keys == s.conditions.Keys;
    }
  }

  lemma CallerKeepsMap(s: Session, a: Action)
    requires MapInv(s) && Enabled(s, a) && !a.OfReceiver()
    ensures MapInv(Step(s, a))
  {
    hide Key;
  }

  lemma FindKeepsTicket(s: Session)
    requires MapInv(s) && Enabled(s, Find)
    ensures TicketInv(Step(s, Find))
  {
    hide Key;
  }

  lemma TicketSurvives(s: Session, t: Session)
    requires TicketInv(s) && s.requests <= t.requests
    requires t.receiver.Claims() ==>
               s.receiver.Claims() && t.receiver.p == s.receiver.p && t.receiver.ticket == s.receiver.ticket
    ensures TicketInv(t)
  {
  }

  lemma StepKeepsTicket(s: Session, a: Action)
    requires MapInv(s) && TicketInv(s) && Enabled(s, a)
    ensures TicketInv(Step(s, a))
  {
    if a.Find? {
      FindKeepsTicket(s);
    } else {
      hide Key, MapInv, TicketInv;
      TicketSurvives(s, Step(s, a));
    }
  }

  lemma StepKeepsOrder(s: Session, a: Action)
    requires OrderInv(s) && Enabled(s, a)
    ensures OrderInv(Step(s, a))
  {
    hide Key;
    match a
    case Read(_) =>
    case Check =>
    case Find =>
    case CopyResponse =>
    case Signal =>
    case Notify =>
    case End =>
    case Clear =>
    case _ =>
  }

  // What holds if no condition is deleted too early.

  lemma ReceiverKeepsClaim(s: Session, a: Action)
    requires MapInv(s) && ClaimInv(s) && ResponseInv(s) && Enabled(s, a) && a.OfReceiver()
    ensures ClaimInv(Step(s, a))
  {
    hide Key, Delivered;
  }

  lemma CallerKeepsClaim(s: Session, a: Action)
    requires MapInv(s) && ClaimInv(s) && ResponseInv(s) && Enabled(s, a) && !a.OfReceiver() && !Premature(s, a)
    ensures ClaimInv(Step(s, a))
  {
    hide Key, Delivered;
  }

  lemma MatchSurvives(s: Session, t: Session)
    requires MatchInv(s) && t.dispatched == s.dispatched && s.received <= t.received && s.requests <= t.requests
    ensures MatchInv(t)
  {
    hide Key;
  }

  lemma StepKeepsMatch(s: Session, a: Action)
    requires TicketInv(s) && OrderInv(s) && MatchInv(s) && Enabled(s, a)
    ensures MatchInv(Step(s, a))
  {
    hide Key;
    if !a.Signal? && !a.Notify? {
      hide MatchInv, TicketInv, OrderInv;
      MatchSurvives(s, Step(s, a));
    }
  }

  lemma FindKeepsOnce(s: Session)
    requires MapInv(s) && MatchInv(s) && OnceInv(s) && Enabled(s, Find)
    ensures OnceInv(Step(s, Find))
  {
    hide Key;
    assert Step(s, Find).dispatched == s.dispatched;
    if s.queue != map[] {
      EntryErased(Key(s.caller.request), s.caller.id, Key(s.receiver.p));
    }
  }

  lemma SignalKeepsOnce(s: Session)
    requires ClaimInv(s) && MapInv(s) && OnceInv(s) && Enabled(s, Signal)
    ensures OnceInv(Step(s, Signal))
  {
    hide Key;
    assert Step(s, Signal).dispatched == s.dispatched + [Waiter(s.receiver.ticket)];
  }

  lemma OnceSurvives(s: Session, t: Session)
    requires OnceInv(s) && t.requests == s.requests
    requires t.dispatched == s.dispatched || t.dispatched == s.dispatched + [Notification]
    requires t.queue == s.queue || t.queue == map[]
    requires t.receiver.Claims() ==> s.receiver.Claims() && t.receiver.ticket == s.receiver.ticket
    ensures OnceInv(t)
  {
  }

  lemma ReceiverKeepsOnce(s: Session, a: Action)
    requires MapInv(s) && ClaimInv(s) && MatchInv(s) && OnceInv(s) && Enabled(s, a) && a.OfReceiver()
    ensures OnceInv(Step(s, a))
  {
    if a.Find? {
      FindKeepsOnce(s);
    } else if a.Signal? {
      SignalKeepsOnce(s);
    } else {
      hide Key, MapInv, ClaimInv, MatchInv, OnceInv;
      OnceSurvives(s, Step(s, a));
    }
  }

  lemma CallerKeepsOnce(s: Session, a: Action)
    requires MapInv(s) && ClaimInv(s) && MatchInv(s) && OnceInv(s) && Enabled(s, a) && !a.OfReceiver()
    ensures OnceInv(Step(s, a))
  {
    hide Key, Delivered;
  }

  lemma DeliveredStays(s: Session, t: Session, ticket: nat, response: Option<Packet>)
    requires s.dispatched <= t.dispatched && s.received <= t.received && Delivered(s, ticket, response)
    ensures Delivered(t, ticket, response)
  {
    var i: nat :| WentTo(s, i, ticket, response.value);
    assert WentTo(t, i, ticket, response.value);
  }

  lemma HistoryGrows(s: Session, a: Action)
    requires Enabled(s, a)
    ensures s.dispatched <= Step(s, a).dispatched && s.received <= Step(s, a).received
    ensures forall ticket, response | Delivered(s, ticket, response) :: Delivered(Step(s, a), ticket, response)
  {
    forall ticket, response | Delivered(s, ticket, response)
      ensures Delivered(Step(s, a), ticket, response)
    {
      DeliveredStays(s, Step(s, a), ticket, response);
    }
  }

  lemma SignalDelivers(s: Session)
    requires s.receiver.Copied? && ClaimInv(s) && OrderInv(s)
    ensures Delivered(Step(s, Signal), s.receiver.ticket, Some(s.receiver.p))
  {
    assert WentTo(Step(s, Signal), |s.dispatched|, s.receiver.ticket, s.receiver.p);
  }

  lemma SignalKeepsResponses(s: Session)
    requires MapInv(s) && ClaimInv(s) && OrderInv(s) && ResponseInv(s) && Enabled(s, Signal)
    ensures ResponseInv(Step(s, Signal))
  {
    hide Key, Delivered, OrderInv;
    HistoryGrows(s, Signal);
    SignalDelivers(s);
  }

  lemma CopyKeepsResponses(s: Session)
    requires MapInv(s) && ClaimInv(s) && ResponseInv(s) && Enabled(s, CopyResponse)
    ensures ResponseInv(Step(s, CopyResponse))
  {
    hide Key, Delivered;
    HistoryGrows(s, CopyResponse);
  }

  lemma ResponsesSurvive(s: Session, t: Session)
    requires ResponseInv(s) && t.conditions == s.conditions && t.caller == s.caller && t.results == s.results
    requires t.requests == s.requests
    requires s.queue == map[] ==> t.queue == map[]
    requires forall ticket, response | Delivered(s, ticket, response) :: Delivered(t, ticket, response)
    ensures ResponseInv(t)
  {
  }

  lemma ReceiverKeepsResponses(s: Session, a: Action)
    requires MapInv(s) && ClaimInv(s) && OrderInv(s) && ResponseInv(s) && Enabled(s, a) && a.OfReceiver()
    ensures ResponseInv(Step(s, a))
  {
    hide Key, Delivered, MapInv, ClaimInv, OrderInv, ResponseInv;
    if a.Signal? {
      SignalKeepsResponses(s);
    } else if a.CopyResponse? {
      CopyKeepsResponses(s);
    } else {
      HistoryGrows(s, a);
      ResponsesSurvive(s, Step(s, a));
    }
  }

  /** The caller takes the response out, or goes away without. */
  lemma LeavingKeepsResponses(s: Session, ok: bool, response: Option<Packet>)
    requires MapInv(s) && ResponseInv(s) && s.caller.Registers()
    requires ok ==> Delivered(s, Ticket(s), response)
    ensures ResponseInv(Left(s, ok, response))
  {
    hide Key;
    var t := Left(s, ok, response);
    forall ticket, packet | Delivered(s, ticket, packet)
      ensures Delivered(t, ticket, packet)
    {
      DeliveredStays(s, t, ticket, packet);
    }
    hide Delivered;
    assert t.conditions == map[];
  }

  lemma RegisteringKeepsResponses(s: Session, id: nat)
    requires MapInv(s) && ResponseInv(s) && Enabled(s, Register(id))
    ensures ResponseInv(Step(s, Register(id)))
  {
    hide Key, Delivered;
    HistoryGrows(s, Register(id));
    assert Step(s, Register(id)).conditions == map[id := Condition(|s.requests|, None, false)];
  }

  lemma CallerKeepsResponses(s: Session, a: Action)
    requires MapInv(s) && ClaimInv(s) && OrderInv(s) && ResponseInv(s) && Enabled(s, a) && !a.OfReceiver()
    ensures ResponseInv(Step(s, a))
  {
    hide Key, Delivered;
    match a
    case SendFails => LeavingKeepsResponses(s, false, None);
    case Retire =>
      LeavingKeepsResponses(s, s.caller.ok, if s.caller.ok then s.conditions[s.caller.id].response else None);
    case Register(id) => RegisteringKeepsResponses(s, id);
    case _ => HistoryGrows(s, a);
  }

  /** Every step of either side keeps the invariant, unless it deletes a claimed condition. */
  lemma StepKeepsInv(s: Session, a: Action)
    requires Inv(s) && Enabled(s, a) && !Premature(s, a)
    ensures Inv(Step(s, a))
  {
    var t := Step(s, a);
    hide MapInv, TicketInv, ClaimInv, OrderInv, MatchInv, OnceInv, ResponseInv, Step, Enabled, Premature;
    StepKeepsOrder(s, a);
    StepKeepsTicket(s, a);
    StepKeepsMatch(s, a);
    if a.OfReceiver() {
      ReceiverKeepsOnce(s, a);
      ReceiverKeepsMap(s, a);
      ReceiverKeepsClaim(s, a);
      ReceiverKeepsResponses(s, a);
    } else {
      CallerKeepsOnce(s, a);
      CallerKeepsMap(s, a);
      CallerKeepsClaim(s, a);
      CallerKeepsResponses(s, a);
    }
  }

  // Runs.

  /** A run from the initial state: states[i + 1] is what actions[i] makes of states[i]. */
  ghost predicate IsRun(states: seq<Session>, actions: seq<Action>) {
    && |states| == |actions| + 1
    && states[0] == INITIAL
    && forall i | 0 <= i < |actions| :: Enabled(states[i], actions[i]) && states[i + 1] == Step(states[i], actions[i])
  }

  /** In the first k steps no claimed condition is deleted before it is signalled. */
  ghost predicate Careful(states: seq<Session>, actions: seq<Action>, k: nat)
    requires IsRun(states, actions) && k < |states|
  {
    forall i | 0 <= i < k :: !Premature(states[i], actions[i])
  }

  lemma {:induction false} RunKeepsInv(states: seq<Session>, actions: seq<Action>, k: nat)
    requires IsRun(states, actions) && k < |states| && Careful(states, actions, k)
    ensures Inv(states[k])
  {
    if k > 0 {
      RunKeepsInv(states, actions, k - 1);
      StepKeepsInv(states[k - 1], actions[k - 1]);
    }
  }

  lemma {:induction false} RunKeepsMap(states: seq<Session>, actions: seq<Action>, k: nat)
    requires IsRun(states, actions) && k < |states|
    ensures MapInv(states[k]) && TicketInv(states[k])
  {
    if k > 0 {
      RunKeepsMap(states, actions, k - 1);
      hide MapInv, TicketInv, Step, Enabled;
      StepKeepsTicket(states[k - 1], actions[k - 1]);
      if actions[k - 1].OfReceiver() {
        ReceiverKeepsMap(states[k - 1], actions[k - 1]);
      } else {
        CallerKeepsMap(states[k - 1], actions[k - 1]);
      }
    }
  }

  /** Whatever the interleaving, a request that is answered is answered with a received packet of its own
      serial number and type, one that went to this request alone, if no claimed condition was deleted. */
  lemma ResponseMatchesRequest(states: seq<Session>, actions: seq<Action>, k: nat, r: Result)
    requires IsRun(states, actions) && k < |states| && Careful(states, actions, k)
    requires r in states[k].results && r.ok
    ensures var s := states[k];
            && r.ticket < |s.requests| && r.response.Some?
            && Uid(r.response.value) == Uid(s.requests[r.ticket])
            && MessageType(r.response.value) == MessageType(s.requests[r.ticket])
            && exists i :: WentTo(s, i, r.ticket, r.response.value)
                        && forall j | 0 <= j < |s.dispatched| && s.dispatched[j] == Waiter(r.ticket) :: j == i
  {
    var s := states[k];
    RunKeepsInv(states, actions, k);
    var i: nat :| WentTo(s, i, r.ticket, r.response.value);
    KeyInjective(s.received[i], s.requests[r.ticket]);
    forall j | 0 <= j < |s.dispatched| && s.dispatched[j] == Waiter(r.ticket)
      ensures j == i
    {
      assert s.dispatched[i].Waiter? && s.dispatched[j].Waiter?;
    }
    assert WentTo(s, i, r.ticket, r.response.value)
        && forall j | 0 <= j < |s.dispatched| && s.dispatched[j] == Waiter(r.ticket) :: j == i;
  }

  /** No packet is lost, duplicated or reordered between the socket and its one destination, which is not deleted. */
  lemma DispatchConservesPackets(states: seq<Session>, actions: seq<Action>, k: nat)
    requires IsRun(states, actions) && k < |states| && Careful(states, actions, k)
    ensures var s := states[k];
            && |s.dispatched| <= |s.received| <= |s.dispatched| + 1
            && (|s.received| == |s.dispatched| + 1 <==> s.receiver.InHand())
            && (s.receiver.InHand() ==> s.received[|s.dispatched|] == s.receiver.p)
            && (forall i, j | 0 <= i < j < |s.dispatched| && s.dispatched[i].Waiter? && s.dispatched[j].Waiter? ::
                  s.dispatched[i].ticket < s.dispatched[j].ticket)
            && s.Live() && !s.dangling
  {
    RunKeepsInv(states, actions, k);
  }

  /** At most one request is pending, and none outside TransmitMessage. */
  lemma OneRequestPending(states: seq<Session>, actions: seq<Action>, k: nat)
    requires IsRun(states, actions) && k < |states|
    ensures |states[k].queue| <= 1
    ensures !states[k].caller.Registers() ==> states[k].queue == map[] && states[k].conditions == map[]
  {
    RunKeepsMap(states, actions, k);
  }

  // What becomes of a packet and of a request.

  /** A packet is claimed for the waiting caller if and only if it has the request's serial number and type. */
  lemma FindClaimsIff(s: Session)
    requires MapInv(s) && Enabled(s, Find)
    ensures Step(s, Find).receiver.Claimed?
       <==> s.queue != map[] && Uid(s.receiver.p) == Uid(s.caller.request)
            && MessageType(s.receiver.p) == MessageType(s.caller.request)
  {
    if s.queue != map[] {
      KeyInjective(s.receiver.p, s.caller.request);
    }
  }

  /** The steps lead, one after the other, from s to t. */
  predicate Leads(s: Session, actions: seq<Action>, t: Session)
    decreases |actions|
  {
    if actions == [] then s == t else Enabled(s, actions[0]) && Leads(Step(s, actions[0]), actions[1..], t)
  }

  lemma {:induction false} LeadsFurther(s: Session, actions: seq<Action>, t: Session, a: Action)
    requires Leads(s, actions, t) && Enabled(t, a)
    ensures Leads(s, actions + [a], Step(t, a))
    decreases |actions|
  {
    hide Step, Enabled;
    if actions == [] {
      assert [a][1..] == [] && [] + [a] == [a];
    } else {
      LeadsFurther(Step(s, actions[0]), actions[1..], t, a);
      assert (actions + [a])[1..] == actions[1..] + [a];
    }
  }

  /** One step more. */
  lemma Next(s: Session, actions: seq<Action>, t: Session, a: Action) returns (actions': seq<Action>, t': Session)
    requires Leads(s, actions, t) && Enabled(t, a)
    ensures actions' == actions + [a] && t' == Step(t, a) && Leads(s, actions', t')
  {
    LeadsFurther(s, actions, t, a);
    actions', t' := actions + [a], Step(t, a);
  }

  lemma NoStep(s: Session) returns (actions: seq<Action>, t: Session)
    ensures actions == [] && t == s && Leads(s, actions, t)
  {
    actions, t := [], s;
  }

  /** A caller waits for its response, its entry is in the map, and the receiver reads. */
  ghost predicate Pending(s: Session) {
    && MapInv(s) && s.caller.Waiting? && s.receiver.Reading? && !s.lost
    && s.queue != map[] && !s.conditions[s.caller.id].signaled
  }

  lemma WaitingIsPending(states: seq<Session>, actions: seq<Action>, k: nat)
    requires IsRun(states, actions) && k < |states| && Careful(states, actions, k)
    requires var s := states[k]; s.caller.Waiting? && s.receiver.Reading? && !s.lost && s.queue != map[]
    ensures Pending(states[k])
  {
    RunKeepsInv(states, actions, k);
  }

  /** Any packet with the request's serial number and type is a response. */
  predicate Answers(p: Packet, request: Packet) {
    Uid(p) == Uid(request) && MessageType(p) == MessageType(request)
  }

  lemma ResponseIsClaimed(s: Session, p: Packet) returns (actions: seq<Action>, t: Session)
    requires Pending(s) && Answers(p, s.caller.request)
    ensures actions == [Read(p), Check, Find] && Leads(s, actions, t)
    ensures t == s.(receiver := Claimed(p, s.caller.id, |s.requests| - 1), queue := map[], received := s.received + [p])
  {
    hide Key, Leads;
    KeyInjective(p, s.caller.request);
    actions, t := NoStep(s);
    actions, t := Next(s, actions, t, Read(p));
    actions, t := Next(s, actions, t, Check);
    actions, t := Next(s, actions, t, Find);
    assert map[Key(p) := s.caller.id] - {Key(p)} == map[];
  }

  lemma ResponseIsSignalled(s: Session, p: Packet) returns (actions: seq<Action>, t: Session)
    requires Pending(s) && Answers(p, s.caller.request)
    ensures actions == [Read(p), Check, Find, CopyResponse, Signal] && Leads(s, actions, t)
    ensures t == s.(queue := map[], received := s.received + [p],
                    conditions := map[s.caller.id := Condition(|s.requests| - 1, Some(p), true)],
                    dispatched := s.dispatched + [Waiter(|s.requests| - 1)])
  {
    hide Key, Leads;
    actions, t := ResponseIsClaimed(s, p);
    hide Pending;
    actions, t := Next(s, actions, t, CopyResponse);
    actions, t := Next(s, actions, t, Signal);
  }

  /** It reaches the caller: the packet itself is what the request returns. */
  lemma ResponseIsReturned(s: Session, p: Packet) returns (actions: seq<Action>, t: Session)
    requires Pending(s) && Answers(p, s.caller.request)
    ensures actions == [Read(p), Check, Find, CopyResponse, Signal, Wake, Retire] && Leads(s, actions, t)
    ensures t == s.(caller := Idle, queue := map[], conditions := map[], received := s.received + [p],
                    dispatched := s.dispatched + [Waiter(|s.requests| - 1)],
                    results := s.results + [Result(|s.requests| - 1, true, Some(p))])
  {
    hide Key, Leads;
    actions, t := ResponseIsSignalled(s, p);
    hide Pending;
    actions, t := Next(s, actions, t, Wake);
    actions, t := Next(s, actions, t, Retire);
    EntryErased(Key(s.caller.request), s.caller.id, Key(s.caller.request));
  }

  /** A packet that nobody waits for goes to the notification handler. */
  lemma UnaskedPacketIsNotified(s: Session, p: Packet) returns (actions: seq<Action>, t: Session)
    requires s.receiver.Reading? && !s.lost && Key(p) !in s.queue
    ensures actions == [Read(p), Check, Find, Notify] && Leads(s, actions, t)
    ensures t == s.(received := s.received + [p], dispatched := s.dispatched + [Notification])
  {
    hide Key, Leads;
    actions, t := NoStep(s);
    actions, t := Next(s, actions, t, Read(p));
    actions, t := Next(s, actions, t, Check);
    actions, t := Next(s, actions, t, Find);
    actions, t := Next(s, actions, t, Notify);
  }

  /** So does any packet other than the response while a caller waits, and it goes on waiting. */
  lemma OtherPacketIsNotified(s: Session, p: Packet) returns (actions: seq<Action>, t: Session)
    requires Pending(s) && !Answers(p, s.caller.request)
    ensures actions == [Read(p), Check, Find, Notify] && Leads(s, actions, t)
    ensures t == s.(received := s.received + [p], dispatched := s.dispatched + [Notification]) && Pending(t)
  {
    hide Key, Leads;
    KeyInjective(p, s.caller.request);
    actions, t := UnaskedPacketIsNotified(s, p);
  }

  /** Nobody gets to ask before the connection was opened, nor once it is not usable any more, unless it is lost. */
  lemma {:induction false} NobodyAsksUnconnected(states: seq<Session>, actions: seq<Action>, i: nat, k: nat)
    requires IsRun(states, actions) && i <= k < |states|
    requires i == 0 || (actions[i - 1] == SetUsable(false) && states[i].caller.Idle? && !states[i].lost)
    requires forall j | i <= j < k :: !actions[j].Open? && !actions[j].Lose? && actions[j] != SetUsable(true)
    ensures var s, t := states[i], states[k];
            !t.usable && !t.lost && t.caller.Idle? && t.requests == s.requests && t.results == s.results
  {
    if i < k {
      hide Step, Enabled;
      NobodyAsksUnconnected(states, actions, i, k - 1);
      StaysUnconnected(states[k - 1], actions[k - 1]);
    }
  }

  lemma StaysUnconnected(s: Session, a: Action)
    requires !s.usable && !s.lost && s.caller.Idle? && Enabled(s, a)
    requires !a.Open? && !a.Lose? && a != SetUsable(true)
    ensures var t := Step(s, a);
            !t.usable && !t.lost && t.caller.Idle? && t.requests == s.requests && t.results == s.results
  {
    hide Key;
  }

  /** The caller has been signalled, or has woken up in time. */
  ghost predicate Secured(s: Session) {
    || (s.caller.Waiting? && s.caller.id in s.conditions && s.conditions[s.caller.id].signaled)
    || (s.caller.Leaving? && s.caller.ok)
  }

  /** The request with this ticket, the n-th to be answered, is a success, or bound to be one. */
  ghost predicate Succeeds(s: Session, ticket: nat, n: nat) {
    || (Secured(s) && Ticket(s) == ticket && |s.results| == n)
    || (|s.results| > n && s.results[n].ok && s.results[n].ticket == ticket)
  }

  lemma ReceiverLeavesCaller(s: Session, a: Action)
    requires Enabled(s, a) && a.OfReceiver()
    ensures var t := Step(s, a); t.caller == s.caller && t.results == s.results && t.requests == s.requests
    ensures a.CopyResponse? || a.Signal? || Step(s, a).conditions == s.conditions
  {
    hide Key;
    match a
    case Read(_) =>
    case Check =>
    case Find =>
    case CopyResponse =>
    case Signal =>
    case Notify =>
    case End =>
    case Clear =>
  }

  lemma SignalsStay(s: Session, a: Action, id: nat)
    requires Enabled(s, a) && (a.CopyResponse? || a.Signal?)
    requires id in s.conditions && s.conditions[id].signaled
    ensures var t := Step(s, a); id in t.conditions && t.conditions[id].signaled
  {
    hide Key;
  }

  lemma ReceiverKeepsSuccess(s: Session, a: Action, ticket: nat, n: nat)
    requires Enabled(s, a) && a.OfReceiver() && Succeeds(s, ticket, n)
    ensures Succeeds(Step(s, a), ticket, n)
  {
    ReceiverLeavesCaller(s, a);
    hide Step;
    if (a.CopyResponse? || a.Signal?) && s.caller.Waiting? && s.caller.id in s.conditions
       && s.conditions[s.caller.id].signaled {
      SignalsStay(s, a, s.caller.id);
    }
    hide Enabled;
  }

  lemma CallerKeepsSuccess(s: Session, a: Action, ticket: nat, n: nat)
    requires Enabled(s, a) && !a.OfReceiver() && Succeeds(s, ticket, n)
    ensures Succeeds(Step(s, a), ticket, n)
  {
    hide Key;
  }

  /** A caller that was signalled before its wait ran out succeeds, whatever happens after that. */
  lemma {:induction false} SignalledRequestSucceeds(states: seq<Session>, actions: seq<Action>, j: nat, k: nat)
    requires IsRun(states, actions) && j <= k < |states| && Secured(states[j])
    ensures Succeeds(states[k], Ticket(states[j]), |states[j].results|)
  {
    hide Step, Enabled, Secured;
    if j < k {
      SignalledRequestSucceeds(states, actions, j, k - 1);
      hide Succeeds;
      if actions[k - 1].OfReceiver() {
        ReceiverKeepsSuccess(states[k - 1], actions[k - 1], Ticket(states[j]), |states[j].results|);
      } else {
        CallerKeepsSuccess(states[k - 1], actions[k - 1], Ticket(states[j]), |states[j].results|);
      }
    }
  }

  /** The receiver does not leave its loop while a request is in the map, as long as the connection is there. */
  lemma ReceiverStaysForRequest(s: Session, a: Action)
    requires Enabled(s, a) && !s.lost && s.queue != map[] && !s.receiver.Ending? && !s.receiver.Ended?
    requires !s.receiver.Joined?
    ensures var r := Step(s, a).receiver; !r.Ending? && !r.Ended? && !r.Joined?
  {
    hide Key;
  }

  /** A request that nothing answers in time fails, and leaves nothing behind. */
  lemma UnansweredRequestFails(s: Session) returns (actions: seq<Action>, t: Session)
    requires Pending(s)
    ensures actions == [TimeOut, Retire] && Leads(s, actions, t)
    ensures t == s.(caller := Idle, queue := map[], conditions := map[],
                    results := s.results + [Result(|s.requests| - 1, false, None)])
  {
    hide Key, Leads;
    actions, t := NoStep(s);
    actions, t := Next(s, actions, t, TimeOut);
    actions, t := Next(s, actions, t, Retire);
    EntryErased(Key(s.caller.request), s.caller.id, Key(s.caller.request));
  }

  /** So does one that cannot be sent. */
  lemma UnsentRequestFails(s: Session, request: Packet, id: nat) returns (actions: seq<Action>, t: Session)
    requires s.caller.Idle? && (s.usable || s.lost) && s.queue == map[] && s.conditions == map[]
    ensures actions == [Enter(request), Register(id), SendFails] && Leads(s, actions, t)
    ensures t == s.(requests := s.requests + [request], results := s.results + [Result(|s.requests|, false, None)])
  {
    hide Key, Leads;
    actions, t := NoStep(s);
    actions, t := Next(s, actions, t, Enter(request));
    actions, t := Next(s, actions, t, Register(id));
    actions, t := Next(s, actions, t, SendFails);
    EntryErased(Key(request), id, Key(request));
  }

  /** And one that is sent is pending. */
  lemma SentRequestIsPending(s: Session, request: Packet, id: nat) returns (actions: seq<Action>, t: Session)
    requires s.caller.Idle? && s.usable && !s.lost && s.queue == map[] && s.conditions == map[]
    requires s.receiver.Reading?
    ensures actions == [Enter(request), Register(id), SendOk] && Leads(s, actions, t)
    ensures Pending(t) && t.caller == Waiting(id, request) && t.requests == s.requests + [request]
    ensures t.received == s.received && t.dispatched == s.dispatched && t.results == s.results
  {
    hide Key, Leads;
    actions, t := NoStep(s);
    actions, t := Next(s, actions, t, Enter(request));
    actions, t := Next(s, actions, t, Register(id));
    actions, t := Next(s, actions, t, SendOk);
    assert t.queue == map[Key(request) := id] && t.conditions == map[id := Condition(|s.requests|, None, false)];
    assert Key(request) in t.queue;
  }

  /**
   A packet that is read but found after the connection was lost goes nowhere; the receiver ends, the map is cleared.
   */
  lemma LossEndsReceiver(s: Session, p: Packet) returns (actions: seq<Action>, t: Session)
    requires s.receiver.Reading?
    ensures actions == [Lose, Read(p), Check, Clear] && Leads(s, actions, t)
    ensures t == s.(lost := true, receiver := Ended, queue := map[])
  {
    hide Key, Leads;
    actions, t := NoStep(s);
    actions, t := Next(s, actions, t, Lose);
    actions, t := Next(s, actions, t, Read(p));
    actions, t := Next(s, actions, t, Check);
    actions, t := Next(s, actions, t, Clear);
  }

  // Opening again.

  /** There is no receiver, none will be started before the old one was waited for, and nothing is signalled. */
  ghost predicate Deaf(s: Session) {
    && s.receiver.Ended?
    && !(s.caller.Leaving? && s.caller.ok)
    && forall id | id in s.conditions :: !s.conditions[id].signaled
  }

  lemma StepKeepsDeaf(s: Session, a: Action)
    requires Deaf(s) && Enabled(s, a) && !a.Join?
    ensures var t := Step(s, a);
            && Deaf(t) && t.received == s.received && t.dispatched == s.dispatched
            && (t.results == s.results || exists ticket :: t.results == s.results + [Result(ticket, false, None)])
  {
    hide Key;
    if (a.Retire? || a.SendFails?) && s.caller.Registers() {
      assert Step(s, a).results == s.results + [Result(Ticket(s), false, None)];
    }
  }

  /**
   A session that was lost and is opened again without having been closed has a connection, but no receiver: it takes
   up no packet, and every request fails.
   */
  lemma {:induction false} ReopenedIsDeaf(states: seq<Session>, actions: seq<Action>, i: nat, k: nat)
    requires IsRun(states, actions) && i <= k < |states|
    requires states[i].receiver.Ended? && states[i].caller.Idle?
    requires forall j | i <= j < k :: !actions[j].Join?
    ensures Deaf(states[k]) && states[k].received == states[i].received && states[k].dispatched == states[i].dispatched
    ensures states[i].results <= states[k].results
    ensures forall j | |states[i].results| <= j < |states[k].results| :: !states[k].results[j].ok
  {
    if i == k {
      RunKeepsMap(states, actions, i);
    } else {
      ReopenedIsDeaf(states, actions, i, k - 1);
      StepKeepsDeaf(states[k - 1], actions[k - 1]);
      hide Step, Enabled, Deaf;
    }
  }

  /** A receiver with nothing to wait for can be stopped; once it was waited for, opening starts another one. */
  lemma ClosedSessionReopens(s: Session) returns (actions: seq<Action>, t: Session)
    requires s.receiver.Reading? && s.caller.Idle? && s.queue == map[]
    ensures actions == [End, Clear, Join, Open] && Leads(s, actions, t)
    ensures t == s.(usable := true, lost := false, receiver := Reading)
  {
    hide Key, Leads;
    actions, t := NoStep(s);
    actions, t := Next(s, actions, t, End);
    actions, t := Next(s, actions, t, Clear);
    actions, t := Next(s, actions, t, Join);
    actions, t := Next(s, actions, t, Open);
  }

  // The lifetime of a claimed condition.

  /** The receiver has touched a deleted condition, or is bound to. */
  predicate Exposed(s: Session) {
    s.dangling || !s.Live()
  }

  lemma StepExposesIff(s: Session, a: Action)
    requires MapInv(s) && TicketInv(s) && Enabled(s, a)
    ensures Exposed(Step(s, a)) <==> Exposed(s) || Premature(s, a)
  {
    hide Key;
  }

  lemma OneStepMore(states: seq<Session>, actions: seq<Action>, k: nat)
    requires IsRun(states, actions) && 0 < k < |states|
    ensures Enabled(states[k - 1], actions[k - 1]) && states[k] == Step(states[k - 1], actions[k - 1])
    ensures Careful(states, actions, k) <==>
            Careful(states, actions, k - 1) && !Premature(states[k - 1], actions[k - 1])
  {
    hide Step, Enabled, Premature;
  }

  /** The code keeps conditions alive until they are signalled exactly in the runs without a premature deletion. */
  lemma {:induction false} ExposedIffPremature(states: seq<Session>, actions: seq<Action>, k: nat)
    requires IsRun(states, actions) && k < |states|
    ensures Exposed(states[k]) <==> !Careful(states, actions, k)
  {
    if k > 0 {
      hide Step, Enabled, Exposed, Premature, MapInv, TicketInv, Careful;
      ExposedIffPremature(states, actions, k - 1);
      RunKeepsMap(states, actions, k - 1);
      OneStepMore(states, actions, k);
      StepExposesIff(states[k - 1], actions[k - 1]);
    }
  }

  lemma RunExtends(states: seq<Session>, actions: seq<Action>, a: Action)
    returns (states': seq<Session>, actions': seq<Action>)
    requires IsRun(states, actions) && Enabled(states[|actions|], a)
    ensures states' == states + [Step(states[|actions|], a)] && actions' == actions + [a]
    ensures IsRun(states', actions') && states'[|actions'|] == Step(states[|actions|], a)
  {
    states', actions' := states + [Step(states[|actions|], a)], actions + [a];
    forall i | 0 <= i < |actions'|
      ensures Enabled(states'[i], actions'[i]) && states'[i + 1] == Step(states'[i], actions'[i])
    {
      if i < |actions| {
        assert states'[i] == states[i] && states'[i + 1] == states[i + 1] && actions'[i] == actions[i];
      }
    }
  }

  lemma RequestSent(request: Packet) returns (states: seq<Session>, actions: seq<Action>)
    ensures actions == [Open, Enter(request), Register(0), SendOk]
    ensures IsRun(states, actions)
    ensures states[|actions|] == INITIAL.(usable := true, queue := map[Key(request) := 0],
                                          conditions := map[0 := Condition(0, None, false)],
                                          caller := Waiting(0, request), receiver := Reading, requests := [request])
  {
    hide Key;
    states, actions := [INITIAL], [];
    states, actions := RunExtends(states, actions, Open);
    states, actions := RunExtends(states, actions, Enter(request));
    states, actions := RunExtends(states, actions, Register(0));
    states, actions := RunExtends(states, actions, SendOk);
  }

  /** A request whose response the receiver has just claimed. */
  lemma ResponseClaimed(request: Packet) returns (states: seq<Session>, actions: seq<Action>)
    ensures actions == [Open, Enter(request), Register(0), SendOk, Read(request), Check, Find]
    ensures IsRun(states, actions)
    ensures states[|actions|] == INITIAL.(usable := true, conditions := map[0 := Condition(0, None, false)],
                                          caller := Waiting(0, request), receiver := Claimed(request, 0, 0),
                                          requests := [request], received := [request])
  {
    hide Key;
    states, actions := RequestSent(request);
    states, actions := RunExtends(states, actions, Read(request));
    states, actions := RunExtends(states, actions, Check);
    states, actions := RunExtends(states, actions, Find);
  }

  /** And its wait has timed out before it is signalled. */
  lemma ConditionDeleted(request: Packet) returns (states: seq<Session>, actions: seq<Action>)
    ensures actions == [Open, Enter(request), Register(0), SendOk, Read(request), Check, Find, TimeOut, Retire]
    ensures IsRun(states, actions)
    ensures states[|actions|] == INITIAL.(usable := true, receiver := Claimed(request, 0, 0), requests := [request],
                                          received := [request], results := [Result(0, false, None)])
  {
    hide Key;
    states, actions := ResponseClaimed(request);
    states, actions := RunExtends(states, actions, TimeOut);
    states, actions := RunExtends(states, actions, Retire);
  }

  /** And there are such runs: the response arrives just as the wait times out. */
  lemma TimeOutCanRaceSignal(request: Packet) returns (states: seq<Session>, actions: seq<Action>)
    ensures IsRun(states, actions) && states[|actions|].dangling
    ensures actions == [Open, Enter(request), Register(0), SendOk, Read(request), Check, Find, TimeOut, Retire]
                       + [CopyResponse]
  {
    hide Key;
    states, actions := ConditionDeleted(request);
    states, actions := RunExtends(states, actions, CopyResponse);
  }

  /** Another request is made, and its condition where the deleted one was. */
  lemma AddressUsedAgain(a: Packet, b: Packet) returns (states: seq<Session>, actions: seq<Action>)
    ensures IsRun(states, actions)
    ensures actions == [Open, Enter(a), Register(0), SendOk, Read(a), Check, Find, TimeOut, Retire]
                       + [Enter(b), Register(0), SendOk]
    ensures states[|actions|] == INITIAL.(usable := true, queue := map[Key(b) := 0],
                                          conditions := map[0 := Condition(1, None, false)], caller := Waiting(0, b),
                                          receiver := Claimed(a, 0, 0), requests := [a, b], received := [a],
                                          results := [Result(0, false, None)])
  {
    hide Key;
    states, actions := ConditionDeleted(a);
    states, actions := RunExtends(states, actions, Enter(b));
    states, actions := RunExtends(states, actions, Register(0));
    states, actions := RunExtends(states, actions, SendOk);
  }

  /**
   Then the later request gets the response to the earlier one: the receiver, which still has the address, writes the
   old packet into the new condition and signals it.
   */
  lemma LaterRequestGetsOldResponse(a: Packet, b: Packet) returns (states: seq<Session>, actions: seq<Action>)
    ensures IsRun(states, actions)
    ensures actions == [Open, Enter(a), Register(0), SendOk, Read(a), Check, Find, TimeOut, Retire]
                       + [Enter(b), Register(0), SendOk] + [CopyResponse, Signal, Wake, Retire]
    ensures var s := states[|actions|];
            s.requests == [a, b] && s.results == [Result(0, false, None), Result(1, true, Some(a))]
  {
    hide Key;
    states, actions := AddressUsedAgain(a, b);
    states, actions := RunExtends(states, actions, CopyResponse);
    states, actions := RunExtends(states, actions, Signal);
    states, actions := RunExtends(states, actions, Wake);
    states, actions := RunExtends(states, actions, Retire);
  }
}
