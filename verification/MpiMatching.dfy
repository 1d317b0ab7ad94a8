/**
 Matching of incoming MPI calls against the one call a process is blocked in.

 The calls a process has received but not yet used wait in a list, in order of arrival. Whenever a
 call arrives or a new one is issued, the oldest waiting call that fits the current one is taken.
 */
module MpiMatching {
  import opened Wrappers

  datatype Op = NoValue | Send | Recv | Barrier | Bcast | Scatter | Gather

  const ANY_SENDER: nat := 4294967294
  const NO_VALUE: nat := 999999999

  /** One call record. `tag` is a history variable: the messages of the program carry no such field,
      and `MatchingIgnoresTags` shows that no decision depends on it. */
  datatype Call = Call(op: Op, sender: nat, receiver: nat, root: nat, size: int, tag: nat)

  const IDLE := Call(NoValue, NO_VALUE, NO_VALUE, NO_VALUE, -1, 0)

  /** A message between two processes. */
  datatype Message = Message(op: Op, source: nat, dest: nat, size: int, tag: nat)

  /** The call record a process queues when it receives `m`. */
  function Received(m: Message, rank: nat): Call {
    Call(m.op, m.source, rank, if m.op == Scatter || m.op == Bcast then m.source else NO_VALUE, m.size, m.tag)
  }

  /** What a blocked call looks for among the calls that arrived. */
  datatype Wanted = Wanted(op: Op, sender: nat, size: int)

  function Search(current: Call): Wanted {
    match current.op
    case Recv => Wanted(Send, current.sender, current.size)
    case Bcast => Wanted(Bcast, current.root, current.size)
    case Scatter => Wanted(Scatter, current.sender, current.size)
    case _ => Wanted(NoValue, NO_VALUE, 0)
  }

  predicate Fits(c: Call, w: Wanted) {
    c.op == w.op && c.size == w.size && (w.sender == ANY_SENDER || c.sender == w.sender)
  }

  /** Position of the oldest call that fits, or the length of the list. */
  function OldestFit(calls: seq<Call>, w: Wanted): (i: nat)
    ensures i <= |calls|
    ensures i < |calls| ==> Fits(calls[i], w)
    ensures forall j :: 0 <= j < i ==> !Fits(calls[j], w)
  {
    if calls == [] then 0
    else if Fits(calls[0], w) then 0
    else 1 + OldestFit(calls[1..], w)
  }

  function RemoveAt<T>(s: seq<T>, i: nat): (r: seq<T>)
    requires i < |s|
    ensures |r| == |s| - 1
  {
    s[..i] + s[i + 1..]
  }

  /** Calls that may wait in the list: only these three are ever inserted. */
  predicate Queueable(c: Call) {
    c.op == Send || c.op == Bcast || c.op == Scatter
  }

  /** Calls that block until a matching call arrives. */
  predicate Matchable(c: Call) {
    c.op == Recv || c.op == Bcast || c.op == Scatter
  }

  /** A broadcast names its root as the sender it waits for. */
  predicate RootIsSender(c: Call) {
    c.op == Bcast ==> c.sender == c.root
  }

  datatype Endpoint = Endpoint(current: Call, calls: seq<Call>, last: Call)

  /** The effect of one synchronisation attempt, and the call it consumed, if any. */
  function Synchronize(e: Endpoint): (r: (Endpoint, Option<Call>)) {
    var i := OldestFit(e.calls, Search(e.current));
    if e.current.op == NoValue || i == |e.calls| then (e, None)
    else
      var c := e.calls[i];
      var done := if e.current.sender == ANY_SENDER then e.current.(sender := c.sender) else e.current;
      (Endpoint(IDLE, RemoveAt(e.calls, i), done), Some(c))
  }

  /** Which waiting calls a blocked call takes: a receive takes a send of its size from the sender it
      names, or from anybody; a broadcast or a scatter takes one of its own kind and size from the root
      (which a scatter names as its sender). */
  lemma WhatCallsTake(current: Call, c: Call)
    ensures current.op == Recv ==>
              (Fits(c, Search(current)) <==>
                 && c.op == Send && c.size == current.size
                 && (current.sender == 4294967294 || c.sender == current.sender))
    ensures current.op == Bcast && current.root != 4294967294 ==>
              (Fits(c, Search(current)) <==> c.op == Bcast && c.size == current.size && c.sender == current.root)
    ensures current.op == Scatter && current.sender != 4294967294 ==>
              (Fits(c, Search(current)) <==> c.op == Scatter && c.size == current.size && c.sender == current.sender)
  {}

  /** A message that was sent is taken by the call that is meant for it. */
  lemma SentIsTaken(m: Message, rank: nat, current: Call)
    requires m.source != ANY_SENDER && current.size == m.size
    ensures m.op == Send && current.op == Recv && (current.sender == m.source || current.sender == ANY_SENDER) ==>
              Fits(Received(m, rank), Search(current))
    ensures (m.op == Bcast || m.op == Scatter) && current.op == m.op && current.sender == current.root == m.source ==>
              Fits(Received(m, rank), Search(current)) && Received(m, rank).root == m.source
    ensures Received(m, rank).receiver == rank && Received(m, rank).sender == m.source
  {}

  function Untagged(s: seq<Call>): seq<Call> {
    seq(|s|, i requires 0 <= i < |s| => s[i].(tag := 0))
  }

  lemma {:induction false} OldestFitIgnoresTags(s: seq<Call>, w: Wanted)
    ensures OldestFit(Untagged(s), w) == OldestFit(s, w)
  {
    if s != [] {
      assert Untagged(s)[0] == s[0].(tag := 0) && Untagged(s)[1..] == Untagged(s[1..]);
      OldestFitIgnoresTags(s[1..], w);
    }
  }

  lemma RemoveIgnoresTags(s: seq<Call>, i: nat)
    requires i < |s|
    ensures Untagged(RemoveAt(s, i)) == RemoveAt(Untagged(s), i)
  {
    assert Untagged(RemoveAt(s, i)) == RemoveAt(Untagged(s), i);
  }

  /** Erasing the history tags commutes with synchronising: no decision reads them. */
  lemma MatchingIgnoresTags(e: Endpoint)
    ensures var plain := Endpoint(e.current.(tag := 0), Untagged(e.calls), e.last.(tag := 0));
            var ((r, taken), (r', taken')) := (Synchronize(e), Synchronize(plain));
            && r' == Endpoint(r.current.(tag := 0), Untagged(r.calls), r.last.(tag := 0))
            && taken' == if taken.Some? then Some(taken.value.(tag := 0)) else None
  {
    var w := Search(e.current);
    OldestFitIgnoresTags(e.calls, w);
    var i := OldestFit(e.calls, w);
    if i < |e.calls| {
      RemoveIgnoresTags(e.calls, i);
    }
  }
}
