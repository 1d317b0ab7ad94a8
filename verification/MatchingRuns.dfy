/** What the matching policy guarantees over whole runs of one process. */
module MatchingRuns {
  import opened MpiMatching

  /** What can happen to a process: a call arrives, its program issues a blocking call, or a barrier
      or a gather that it was blocked in completes. */
  datatype Event = Arrive(arriving: Call) | Issue(issued: Call) | Release

  datatype History = History(ep: Endpoint, arrived: seq<Call>, taken: seq<Call>)

  const START := History(Endpoint(IDLE, [], IDLE), [], [])

  predicate Enabled(h: History, e: Event) {
    match e
    case Arrive(c) => Queueable(c)
    case Issue(c) =>
      && h.ep.current.op == NoValue && (Matchable(c) || c.op == Barrier || c.op == Gather)
      && RootIsSender(c)
    case Release => h.ep.current.op == Barrier || h.ep.current.op == Gather
  }

  function Synced(h: History): History {
    var (ep, taken) := Synchronize(h.ep);
    History(ep, h.arrived, h.taken + if taken.Some? then [taken.value] else [])
  }

  function Step(h: History, e: Event): History {
    if !Enabled(h, e) then h
    else match e
      case Arrive(c) =>
        Synced(h.(ep := h.ep.(calls := h.ep.calls + [c]), arrived := h.arrived + [c]))
      case Issue(c) => Synced(h.(ep := h.ep.(current := c)))
      case Release => h.(ep := h.ep.(current := IDLE))
  }

  function Execute(events: seq<Event>): History {
    if events == [] then START
    else Step(Execute(events[..|events| - 1]), events[|events| - 1])
  }

  // ---------------------------------------------------------------- guarantees

  /** Calls that one matching pattern cannot tell apart. */
  datatype Channel = Channel(op: Op, sender: nat, size: int)

  function ChannelOf(c: Call): Channel { Channel(c.op, c.sender, c.size) }

  function On(s: seq<Call>, ch: Channel): seq<Call> {
    if s == [] then []
    else if ChannelOf(s[0]) == ch then [s[0]] + On(s[1..], ch)
    else On(s[1..], ch)
  }

  /** A process that waits for a call finds none in its list. */
  ghost predicate NoLostWakeup(ep: Endpoint) {
    Matchable(ep.current) ==> forall c :: c in ep.calls ==> !Fits(c, Search(ep.current))
  }

  /** On every channel the calls are taken in the order in which they arrived, none twice. */
  ghost predicate InOrder(h: History) {
    forall ch :: On(h.arrived, ch) == On(h.taken, ch) + On(h.ep.calls, ch)
  }

  ghost predicate Conserved(h: History) {
    multiset(h.arrived) == multiset(h.taken) + multiset(h.ep.calls)
  }

  ghost predicate HistoryInv(h: History) {
    && (forall c :: c in h.ep.calls ==> Queueable(c))
    && RootIsSender(h.ep.current)
    && NoLostWakeup(h.ep) && InOrder(h) && Conserved(h)
  }

  lemma {:induction false} OnConcat(a: seq<Call>, b: seq<Call>, ch: Channel)
    ensures On(a + b, ch) == On(a, ch) + On(b, ch)
  {
    if a == [] {
      assert a + b == b;
    } else {
      assert (a + b)[1..] == a[1..] + b;
      OnConcat(a[1..], b, ch);
    }
  }

  lemma {:induction false} OnNone(s: seq<Call>, ch: Channel)
    requires forall c :: c in s ==> ChannelOf(c) != ch
    ensures On(s, ch) == []
  {
    if s != [] {
      OnNone(s[1..], ch);
    }
  }

  /** Taking the oldest call that fits takes the head of that call's channel. */
  lemma TakenIsChannelHead(calls: seq<Call>, w: Wanted, i: nat, ch: Channel)
    requires i == OldestFit(calls, w) && i < |calls|
    ensures On(calls, ch) == On([calls[i]], ch) + On(RemoveAt(calls, i), ch)
  {
    var a, c, b := calls[..i], calls[i], calls[i + 1..];
    assert calls == a + ([c] + b);
    OnConcat(a, [c] + b, ch);
    OnConcat([c], b, ch);
    OnConcat(a, b, ch);
    if ChannelOf(c) == ch {
      forall x | x in a ensures ChannelOf(x) != ch {
        var j :| 0 <= j < i && a[j] == x;
        assert !Fits(calls[j], w);
      }
      OnNone(a, ch);
    } else {
      OnNone([c], ch);
    }
  }

  lemma SyncKeeps(h: History)
    requires RootIsSender(h.ep.current)
    requires forall c :: c in h.ep.calls ==> Queueable(c)
    requires InOrder(h) && Conserved(h)
    ensures HistoryInv(Synced(h))
  {
    var calls := h.ep.calls;
    var w := Search(h.ep.current);
    var i := OldestFit(calls, w);
    var h' := Synced(h);
    if h.ep.current.op == NoValue || i == |calls| {
      assert h'.taken == h.taken;
    } else {
      var c := calls[i];
      assert calls == calls[..i] + [c] + calls[i + 1..];
      forall ch ensures On(h'.arrived, ch) == On(h'.taken, ch) + On(h'.ep.calls, ch) {
        TakenIsChannelHead(calls, w, i, ch);
        OnConcat(h.taken, [c], ch);
      }
    }
  }

  lemma StepKeeps(h: History, e: Event)
    requires HistoryInv(h)
    ensures HistoryInv(Step(h, e))
  {
    if Enabled(h, e) {
      match e
      case Arrive(c) =>
        var h1 := h.(ep := h.ep.(calls := h.ep.calls + [c]), arrived := h.arrived + [c]);
        forall ch ensures On(h1.arrived, ch) == On(h1.taken, ch) + On(h1.ep.calls, ch) {
          OnConcat(h.arrived, [c], ch);
          OnConcat(h.ep.calls, [c], ch);
        }
        SyncKeeps(h1);
      case Issue(c) =>
        SyncKeeps(h.(ep := h.ep.(current := c)));
      case Release =>
    }
  }

  /** In every run: no lost wake-up, every channel is first in first out, and every call that arrived
      is either still queued or was consumed exactly once. */
  lemma {:induction false} MatchingIsSound(events: seq<Event>)
    ensures var h := Execute(events);
            NoLostWakeup(h.ep) && InOrder(h) && Conserved(h)
    ensures HistoryInv(Execute(events))
  {
    if events != [] {
      MatchingIsSound(events[..|events| - 1]);
      StepKeeps(Execute(events[..|events| - 1]), events[|events| - 1]);
    }
  }

  /** A call that is issued takes the oldest waiting call that fits, and is over; when none fits the
      process is blocked in it and its list stays. */
  lemma IssueTakesOldest(events: seq<Event>, c: Call)
    requires var h := Execute(events); h.ep.current.op == NoValue && Matchable(c) && RootIsSender(c)
    ensures var (h, h') := (Execute(events), Execute(events + [Issue(c)]));
            if forall k :: 0 <= k < |h.ep.calls| ==> !Fits(h.ep.calls[k], Search(c))
            then h'.ep == h.ep.(current := c) && h'.taken == h.taken
            else exists k :: 0 <= k < |h.ep.calls| && IsTaken(h, c, k, h')
  {
    var h := Execute(events);
    assert (events + [Issue(c)])[..|events|] == events;
    var k := OldestFit(h.ep.calls, Search(c));
    if k < |h.ep.calls| {
      assert IsTaken(h, c, k, Execute(events + [Issue(c)]));
    } else {
      assert Execute(events + [Issue(c)]).taken == h.taken;
    }
  }

  /** The call c was matched with number k of the list, the oldest that fits. */
  ghost predicate IsTaken(h: History, c: Call, k: nat, h': History)
    requires k < |h.ep.calls|
  {
    var calls := h.ep.calls;
    && Fits(calls[k], Search(c)) && (forall l :: 0 <= l < k ==> !Fits(calls[l], Search(c)))
    && h'.taken == h.taken + [calls[k]] && h'.ep.calls == calls[..k] + calls[k + 1..]
    && h'.ep.current == IDLE
    && h'.ep.last == if c.sender == ANY_SENDER then c.(sender := calls[k].sender) else c
  }

  /** A blocked process leaves its call at the very arrival that can serve it, and takes that one. */
  lemma ArrivalWakes(events: seq<Event>, c: Call)
    requires Queueable(c)
    requires var h := Execute(events); Matchable(h.ep.current) && Fits(c, Search(h.ep.current))
    ensures var h, h' := Execute(events), Execute(events + [Arrive(c)]);
            && h'.ep.current == IDLE && h'.ep.calls == h.ep.calls
            && h'.taken == h.taken + [c] && h'.ep.last.sender == c.sender
  {
    var h := Execute(events);
    MatchingIsSound(events);
    assert (events + [Arrive(c)])[..|events|] == events;
    var calls := h.ep.calls + [c];
    var i := OldestFit(calls, Search(h.ep.current));
    assert forall j :: 0 <= j < |h.ep.calls| ==> calls[j] in h.ep.calls;
    assert Fits(calls[|h.ep.calls|], Search(h.ep.current));
    assert i == |h.ep.calls|;
    assert RemoveAt(calls, i) == h.ep.calls;
  }
}
