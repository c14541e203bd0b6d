/** The process-wide counter that packet serial numbers come from. */
module Uids {
  import opened Bytes

  /** The serial number a request gets; 0 asks for an automatic one. */
  function Assigned(counter: Word, request: Word): Word {
    if request == 0 then counter else request
  }

  function CounterAfter(counter: Word, request: Word): Word {
    if request == 0 then (counter + 1) % WORD
    else if request > counter then (request + 1) % WORD
    else counter
  }

  class UidCounter {
    var globalUID: Word

    constructor ()
      ensures globalUID == 1
    {
      globalUID := 1;
    }

    method Assign(request: Word) returns (uid: Word)
      modifies this
      ensures uid == Assigned(old(globalUID), request)
      ensures globalUID == CounterAfter(old(globalUID), request)
    {
      uid := request;
      if uid <= 0 {
        uid := globalUID;
        globalUID := (globalUID + 1) % WORD;
      } else if uid > globalUID {
        globalUID := (uid + 1) % WORD;
      }
    }
  }

  // Runs of requests.

  function Counter(start: Word, requests: seq<Word>): Word {
    if requests == [] then start
    else CounterAfter(Counter(start, requests[..|requests| - 1]), requests[|requests| - 1])
  }

  /** All serial numbers handed out, in order. */
  function Issued(start: Word, requests: seq<Word>): (uids: seq<Word>)
    ensures |uids| == |requests|
  {
    if requests == [] then []
    else
      var before := requests[..|requests| - 1];
      Issued(start, before) + [Assigned(Counter(start, before), requests[|requests| - 1])]
  }

  /** The counter does not wrap around to 0 on the way. */
  predicate NeverWraps(start: Word, requests: seq<Word>) {
    requests == [] ||
    var before := requests[..|requests| - 1];
    NeverWraps(start, before) && Counter(start, requests) != 0
  }

  /** Someone asked for exactly the number the counter stands at, and it has not moved since. */
  predicate Taken(start: Word, requests: seq<Word>) {
    requests != [] &&
    var before, last := requests[..|requests| - 1], requests[|requests| - 1];
    last != 0 && (last == Counter(start, before) || (last < Counter(start, before) && Taken(start, before)))
  }

  lemma CounterMovesUp(counter: Word, request: Word)
    requires CounterAfter(counter, request) != 0
    ensures CounterAfter(counter, request)
         == if request == 0 then counter + 1 else if request > counter then request + 1 else counter
  {
  }

  /** Up to a wrap no number above the counter is out, and the counter itself is out exactly if it was taken. */
  lemma {:induction false} IssuedUpToCounter(start: Word, requests: seq<Word>)
    requires NeverWraps(start, requests)
    ensures forall u | u in Issued(start, requests) :: u <= Counter(start, requests)
    ensures Counter(start, requests) in Issued(start, requests) <==> Taken(start, requests)
  {
    if requests != [] {
      var before, last := requests[..|requests| - 1], requests[|requests| - 1];
      IssuedUpToCounter(start, before);
      CounterMovesUp(Counter(start, before), last);
      hide CounterAfter;
      assert Issued(start, requests) == Issued(start, before) + [Assigned(Counter(start, before), last)];
    }
  }

  /** The next automatic number is new exactly if nobody asked for it by name. */
  lemma NextIsFreshIffNotTaken(start: Word, requests: seq<Word>)
    requires NeverWraps(start, requests)
    ensures Assigned(Counter(start, requests), 0) !in Issued(start, requests) <==> !Taken(start, requests)
  {
    IssuedUpToCounter(start, requests);
  }

  /** Automatic numbers strictly increase, and are never below any number given before. */
  lemma {:induction false} AutomaticNumbersIncrease(start: Word, requests: seq<Word>, i: nat, j: nat)
    requires NeverWraps(start, requests) && i < j < |requests| && requests[j] == 0
    ensures Issued(start, requests)[i] <= Issued(start, requests)[j]
    ensures requests[i] == 0 ==> Issued(start, requests)[i] < Issued(start, requests)[j]
    decreases |requests|
  {
    var before := requests[..|requests| - 1];
    if j < |requests| - 1 {
      AutomaticNumbersIncrease(start, before, i, j);
    } else {
      IssuedUpToCounter(start, before);
      AutomaticIsBelowCounter(start, before, i);
    }
  }

  lemma {:induction false} AutomaticIsBelowCounter(start: Word, requests: seq<Word>, i: nat)
    requires NeverWraps(start, requests) && i < |requests|
    ensures Issued(start, requests)[i] in Issued(start, requests)
    ensures requests[i] == 0 ==> Issued(start, requests)[i] < Counter(start, requests)
  {
    var before := requests[..|requests| - 1];
    if i < |before| {
      AutomaticIsBelowCounter(start, before, i);
    }
  }

  /** Receiving a packet asks for number 1; done first, it makes the first automatic number a duplicate. */
  lemma DuplicateAtStart()
    ensures Issued(1, [1, 0]) == [1, 1]
  {
    assert [1, 0][..1] == [1];
    assert Counter(1, [1]) == 1 && Issued(1, [1]) == [1] by {
      assert [1][..0] == [];
    }
  }

  lemma OneMoreRequest(start: Word, requests: seq<Word>, last: Word)
    ensures Issued(start, requests + [last]) == Issued(start, requests) + [Assigned(Counter(start, requests), last)]
    ensures Counter(start, requests + [last]) == CounterAfter(Counter(start, requests), last)
  {
    assert (requests + [last])[..|requests|] == requests;
  }

  /** Automatic numbers count up from where the counter stands. */
  lemma {:induction false} AutomaticNumbersCount(start: Word, k: nat)
    requires start + k < WORD
    ensures Issued(start, seq(k, _ => 0)) == seq(k, i requires 0 <= i < k => start + i)
    ensures Counter(start, seq(k, _ => 0)) == start + k
  {
    if k > 0 {
      hide Issued, Counter;
      AutomaticNumbersCount(start, k - 1);
      assert seq(k, _ => 0) == seq(k - 1, _ => 0) + [0];
      OneMoreRequest(start, seq(k - 1, _ => 0), 0);
    }
  }

  /** A number asked for by name is given, and the next automatic one lies behind it, or where it would have been. */
  lemma NamedNumberIsGiven(start: Word, requests: seq<Word>, named: Word)
    requires named != 0
    ensures var next := Counter(start, requests);
            Issued(start, requests + [named] + [0])
            == Issued(start, requests) + [named] + [if named <= next then next
                                                    else if named == 0xFFFF_FFFF then 0 else named + 1]
  {
    hide Issued, Counter;
    OneMoreRequest(start, requests, named);
    OneMoreRequest(start, requests + [named], 0);
  }
}
