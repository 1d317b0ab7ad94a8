/** Every step of a worker set keeps the invariant, and what that means for whole runs. */
module HpcSafety {
  import opened MpiMatching
  import opened HpcProcess
  import opened HpcSet

  /** What the invariant of worker i depends on. */
  lemma WorkerFrame(cfg: Config, s: System, s': System, i: nat)
    requires |s'.procs| == |s.procs| && 1 <= i < |s.procs| && WorkerInv(cfg, s, i)
    requires s'.procs[i] == s.procs[i]
    requires s'.procs[0].iteration == s.procs[0].iteration &&
             s'.procs[0].phase.MasterWaiting? && s.procs[0].phase.MasterWaiting?
    requires var k := s.procs[0].iteration;
             && (DataMsg(cfg, i, k) in s'.net <==> DataMsg(cfg, i, k) in s.net)
             && (ResultMsg(cfg, i, k) in s'.net <==> ResultMsg(cfg, i, k) in s.net)
             && (ResultCall(cfg, i, k) in s'.procs[0].accepted <==> ResultCall(cfg, i, k) in s.procs[0].accepted)
    ensures WorkerInv(cfg, s', i)
  {}

  /** The network after one message left it and others were sent. */
  lemma NetFrame(net: multiset<Message>, x: Message, y: Message)
    requires y != x
    ensures y in net - multiset{x} <==> y in net
  {}

  // ---------------------------------------------------------------- a result reaches the master

  /** The master after it consumed one more result. */
  function Taking(cfg: Config, m: Process, c: Call): Process {
    m.(accepted := m.accepted + [c])
  }

  lemma CollectOne(cfg: Config, m: Process, msg: Message, left: nat)
    requires m.inbox == [] && m.phase == MasterWaiting(left) && left > 0
    requires msg.op == Send && msg.size == ResultSize(cfg)
    ensures var c := Received(msg, cfg.base);
            Incoming(cfg, cfg.base, m, msg) ==
            if left == 1 then AllResults(cfg, Taking(cfg, m, c))
            else Outcome(Taking(cfg, m, c).(phase := MasterWaiting(left - 1)), [])
  {
    var c := Received(msg, cfg.base);
    var q := m.(inbox := m.inbox + [c]);
    var w := Wanted(Send, ANY_SENDER, ResultSize(cfg));
    assert Fits(q.inbox[0], w);
    assert OldestFit(q.inbox, w) == 0;
    assert RemoveAt(q.inbox, 0) == [];
    var q1 := Taking(cfg, m, c);
    assert q.(inbox := RemoveAt(q.inbox, 0), accepted := q.accepted + [q.inbox[0]]) == q1;
    assert Collect(cfg, q, left) == TakeResult(cfg, q1, left);
    if left > 1 {
      assert Collect(cfg, q1, left - 1) == Outcome(q1.(phase := MasterWaiting(left - 1)), []);
    }
  }

  /** A result in flight comes from a worker that finished the iteration and was not counted yet. */
  lemma ResultIsFresh(cfg: Config, s: System, msg: Message)
    requires Inv(cfg, s) && msg in s.net && msg.dest == cfg.base
    ensures var (m, j) := (s.procs[0], msg.source - cfg.base);
            && m.phase.MasterWaiting? && 1 <= j < cfg.members && msg == ResultMsg(cfg, j, m.iteration)
            && ResultCall(cfg, j, m.iteration) !in m.accepted && After(cfg, s.procs[j], m.iteration)
            && ResultsOf(cfg, m.accepted + [Received(msg, cfg.base)], m.iteration)
  {
    var m, j := s.procs[0], msg.source - cfg.base;
    assert 1 <= j < cfg.members && msg == ResultMsg(cfg, j, m.iteration);
    assert WorkerInv(cfg, s, j);
  }

  /** A result that is not the last one. */
  lemma AcceptMore(cfg: Config, s: System, msg: Message, s': System)
    requires Inv(cfg, s) && msg in s.net && msg.dest == cfg.base
    requires s.procs[0].phase.MasterWaiting? && s.procs[0].phase.left > 1
    requires var q := Taking(cfg, s.procs[0], Received(msg, cfg.base));
             s' == System(s.procs[0 := q.(phase := MasterWaiting(s.procs[0].phase.left - 1))], s.net - multiset{msg})
    ensures Inv(cfg, s')
  {
    ResultIsFresh(cfg, s, msg);
    var k := s.procs[0].iteration;
    forall i | 1 <= i < cfg.members ensures WorkerInv(cfg, s', i) {
      assert WorkerInv(cfg, s, i);
      if i != msg.source - cfg.base {
        assert ResultMsg(cfg, i, k) != msg;
        WorkerFrame(cfg, s, s', i);
      }
    }
  }

  /** The delivery of a result to the waiting master, as a step of the set. */
  lemma AcceptStep(cfg: Config, s: System, msg: Message, left: nat)
    requires |s.procs| > 0 && msg in s.net && msg.dest == cfg.base && msg.op == Send && msg.size == ResultSize(cfg)
    requires s.procs[0].inbox == [] && s.procs[0].phase == MasterWaiting(left) && left > 0
    ensures var q := Taking(cfg, s.procs[0], Received(msg, cfg.base));
            Step(cfg, s, Delivery(msg)) ==
            if left == 1 then Apply(s.(net := s.net - multiset{msg}), 0, AllResults(cfg, q))
            else System(s.procs[0 := q.(phase := MasterWaiting(left - 1))], s.net - multiset{msg})
  {
    CollectOne(cfg, s.procs[0], msg, left);
  }

  lemma AcceptKeeps(cfg: Config, s: System, msg: Message)
    requires ValidConfig(cfg) && cfg.workersSet >= 2 && Inv(cfg, s) && msg in s.net && msg.dest == cfg.base
    ensures Inv(cfg, Step(cfg, s, Delivery(msg)))
  {
    ResultIsFresh(cfg, s, msg);
    var left := s.procs[0].phase.left;
    AcceptStep(cfg, s, msg, left);
    if left > 1 {
      AcceptMore(cfg, s, msg, Step(cfg, s, Delivery(msg)));
    } else {
      AcceptLast(cfg, s, msg);
    }
  }

  lemma AcceptLast(cfg: Config, s: System, msg: Message)
    requires ValidConfig(cfg) && cfg.workersSet >= 2 && Inv(cfg, s) && msg in s.net && msg.dest == cfg.base
    requires s.procs[0].phase == MasterWaiting(1)
    ensures var s1 := s.(net := s.net - multiset{msg});
            Inv(cfg, Apply(s1, 0, AllResults(cfg, Taking(cfg, s.procs[0], Received(msg, cfg.base)))))
  {
    LastResult(cfg, s, msg);
    var m, c := s.procs[0], Received(msg, cfg.base);
    RoundRecorded(cfg, m, c);
    var q := Taking(cfg, m, c);
    var done := q.(accepted := [], rounds := q.rounds + [q.accepted]);
    var s1 := System(s.procs[0 := done], s.net - multiset{msg});
    assert RoundDone(cfg, s1);
    var out := AllResults(cfg, q);
    assert s1.procs[0 := out.p] == s.procs[0 := out.p];
    if cfg.workersWrite {
      NextKeeps(cfg, s1);
    } else {
      var s' := Apply(s1, 0, out);
      forall i | 1 <= i < cfg.members ensures WorkerInv(cfg, s', i) {
        assert DoneWith(cfg, i, s1.procs[i], s1.procs[0].iteration);
      }
    }
  }

  /** With every worker past iteration k and all but one result counted, that one was all there was. */
  lemma NothingElseInFlight(cfg: Config, s: System, msg: Message)
    requires SetInv(cfg, s) && msg in s.net
    requires forall i :: 1 <= i < cfg.members ==>
               && DataMsg(cfg, i, s.procs[0].iteration) !in s.net
               && (ResultMsg(cfg, i, s.procs[0].iteration) in s.net ==> ResultMsg(cfg, i, s.procs[0].iteration) == msg)
    ensures s.net - multiset{msg} == multiset{}
  {
    assert forall x :: x in s.net ==> x == msg && s.net[x] == 1;
    forall x ensures (s.net - multiset{msg})[x] == 0 {}
  }

  /** The master's own record of a round that is complete with its last result. */
  lemma RoundRecorded(cfg: Config, m: Process, c: Call)
    requires MasterInv(cfg, m) && m.phase == MasterWaiting(1) && ResultsOf(cfg, m.accepted + [c], m.iteration)
    ensures var rounds := m.rounds + [m.accepted + [c]];
            |rounds| == m.iteration && forall i :: 0 <= i < |rounds| ==> CompleteRound(cfg, rounds[i], i + 1)
  {}

  /** When the last result is taken, every worker has moved on and nothing is left in flight. */
  lemma LastResult(cfg: Config, s: System, msg: Message)
    requires Inv(cfg, s) && msg in s.net && msg.dest == cfg.base
    requires s.procs[0].phase == MasterWaiting(1)
    ensures s.net - multiset{msg} == multiset{}
    ensures forall i :: 1 <= i < cfg.members ==> DoneWith(cfg, i, s.procs[i], s.procs[0].iteration)
    ensures CompleteRound(cfg, s.procs[0].accepted + [Received(msg, cfg.base)], s.procs[0].iteration)
  {
    ResultIsFresh(cfg, s, msg);
    var k := s.procs[0].iteration;
    var all := s.procs[0].accepted + [Received(msg, cfg.base)];
    AcceptedCoverWorkers(cfg, all, k);
    forall i | 1 <= i < cfg.members
      ensures DoneWith(cfg, i, s.procs[i], k)
      ensures DataMsg(cfg, i, k) !in s.net && (ResultMsg(cfg, i, k) in s.net ==> ResultMsg(cfg, i, k) == msg)
    {
      assert ResultCall(cfg, i, k) in all;
      CountedWorker(cfg, s, i, msg);
    }
    NothingElseInFlight(cfg, s, msg);
  }

  lemma CountedWorker(cfg: Config, s: System, i: nat, msg: Message)
    requires SetInv(cfg, s) && 1 <= i < cfg.members && s.procs[0].phase.MasterWaiting?
    requires ResultCall(cfg, i, s.procs[0].iteration) in s.procs[0].accepted + [Received(msg, cfg.base)]
    requires msg in s.net && msg == ResultMsg(cfg, msg.source - cfg.base, s.procs[0].iteration) && msg.source > cfg.base
    ensures var k := s.procs[0].iteration;
            && DoneWith(cfg, i, s.procs[i], k)
            && DataMsg(cfg, i, k) !in s.net && (ResultMsg(cfg, i, k) in s.net ==> ResultMsg(cfg, i, k) == msg)
  {
    assert WorkerInv(cfg, s, i);
  }

  // ---------------------------------------------------------------- worker steps

  lemma ReceiveNothing(cfg: Config, w: Process)
    requires w.inbox == []
    ensures Receive(cfg, w) == w.(phase := WorkerReceiving)
  {}

  lemma ReceiveInput(cfg: Config, j: nat, w: Process, k: nat)
    requires w.inbox == [DataCall(cfg, j, k)]
    ensures Receive(cfg, w) == ReadOrAllocate(cfg, w.(inbox := [], rounds := w.rounds + [[DataCall(cfg, j, k)]]))
  {
    var wanted := Wanted(Send, cfg.base, DataSize(cfg));
    assert Fits(w.inbox[0], wanted);
    assert OldestFit(w.inbox, wanted) == 0;
    assert RemoveAt(w.inbox, 0) == [];
  }

  /** Worker j changes without touching the network: the rest of the set does not notice. */
  lemma WorkerAlone(cfg: Config, s: System, j: nat, w: Process)
    requires SetInv(cfg, s) && 1 <= j < cfg.members
    requires WorkerInv(cfg, Apply(s, j, Outcome(w, [])), j)
    ensures SetInv(cfg, Apply(s, j, Outcome(w, [])))
  {
    var s' := Apply(s, j, Outcome(w, []));
    assert s'.net == s.net;
    forall i | 1 <= i < cfg.members ensures WorkerInv(cfg, s', i) {
      if i != j {
        assert WorkerInv(cfg, s, i);
      }
    }
  }

  /** Worker j sends its result of the current iteration. */
  lemma SendBackKeeps(cfg: Config, s: System, j: nat)
    requires SetInv(cfg, s) && 1 <= j < cfg.members && Busy(s.procs[j], s.procs[0].iteration)
    ensures SetInv(cfg, Apply(s, j, SendBack(cfg, cfg.base + j, s.procs[j])))
  {
    assert WorkerInv(cfg, s, j);
    var k, w := s.procs[0].iteration, s.procs[j];
    var out := SendBack(cfg, cfg.base + j, w);
    ReceiveNothing(cfg, w.(iteration := k + 1));
    var s' := Apply(s, j, out);
    assert out.sent == [ResultMsg(cfg, j, k)];
    assert s'.net == s.net + multiset{ResultMsg(cfg, j, k)};
    forall i | 1 <= i < cfg.members ensures WorkerInv(cfg, s', i) {
      assert WorkerInv(cfg, s, i);
      if i != j {
        WorkerFrame(cfg, s, s', i);
      }
    }
  }

  /** A worker that starts, or has created its file, asks for its input and may find it waiting. */
  lemma EarlyReceives(cfg: Config, j: nat, w: Process, phase: Phase, k: nat, sent: bool, back: bool, taken: bool)
    requires w.phase == NotStarted || w.phase == Creating
    requires WorkerRounds(cfg, j, w) && w.accepted == [] && WorkerAt(cfg, j, w, phase, k, sent, back, taken)
    ensures WorkerAt(cfg, j, w.(phase := Creating), phase, k, sent, back, taken)
    ensures var w' := Receive(cfg, w);
            WorkerRounds(cfg, j, w') && w'.accepted == [] && WorkerAt(cfg, j, w', phase, k, sent, back, taken)
  {
    if w.inbox == [] {
      ReceiveNothing(cfg, w);
    } else {
      ReceiveInput(cfg, j, w, k);
    }
  }

  lemma WorkerStartOrCreated(cfg: Config, s: System, j: nat)
    requires SetInv(cfg, s) && 1 <= j < cfg.members
    requires s.procs[j].phase == NotStarted || s.procs[j].phase == Creating
    ensures SetInv(cfg, Apply(s, j, Outcome(s.procs[j].(phase := Creating), [])))
    ensures SetInv(cfg, Apply(s, j, Outcome(Receive(cfg, s.procs[j]), [])))
  {
    assert WorkerInv(cfg, s, j);
    var m := s.procs[0];
    var k := m.iteration;
    EarlyReceives(cfg, j, s.procs[j], m.phase, k,
                  DataMsg(cfg, j, k) in s.net, ResultMsg(cfg, j, k) in s.net, ResultCall(cfg, j, k) in m.accepted);
    WorkerAlone(cfg, s, j, s.procs[j].(phase := Creating));
    WorkerAlone(cfg, s, j, Receive(cfg, s.procs[j]));
  }

  /** A busy worker goes from one of its local requests to the next. */
  lemma BusyStays(cfg: Config, s: System, j: nat, phase: Phase)
    requires SetInv(cfg, s) && 1 <= j < cfg.members && Busy(s.procs[j], s.procs[0].iteration)
    requires Busy(s.procs[j].(phase := phase), s.procs[0].iteration)
    ensures SetInv(cfg, Apply(s, j, Outcome(s.procs[j].(phase := phase), [])))
  {
    assert WorkerInv(cfg, s, j);
    WorkerAlone(cfg, s, j, s.procs[j].(phase := phase));
  }

  lemma WorkerLocalOutcome(cfg: Config, j: nat, w: Process)
    requires j > 0
    ensures w.phase == Creating ==> LocalDone(cfg, cfg.base + j, w) == Outcome(Receive(cfg, w), [])
    ensures w.phase == WorkerProcessing && !cfg.workersWrite ==>
              LocalDone(cfg, cfg.base + j, w) == SendBack(cfg, cfg.base + j, w)
    ensures w.phase == WorkerWriting ==> LocalDone(cfg, cfg.base + j, w) == SendBack(cfg, cfg.base + j, w)
  {}

  lemma WorkerLocalKeeps(cfg: Config, s: System, j: nat)
    requires SetInv(cfg, s) && 1 <= j < cfg.members && HasLocalRequest(s.procs[j])
    ensures SetInv(cfg, Apply(s, j, LocalDone(cfg, cfg.base + j, s.procs[j])))
  {
    var w := s.procs[j];
    assert w.phase == Creating || Busy(w, s.procs[0].iteration) by {
      assert WorkerInv(cfg, s, j);
    }
    WorkerLocalOutcome(cfg, j, w);
    if w.phase == Creating {
      WorkerStartOrCreated(cfg, s, j);
    } else if w.phase == WorkerReading {
      BusyStays(cfg, s, j, WorkerAllocating);
    } else if w.phase == WorkerAllocating {
      BusyStays(cfg, s, j, WorkerProcessing);
    } else if w.phase == WorkerProcessing && cfg.workersWrite {
      BusyStays(cfg, s, j, WorkerWriting);
    } else {
      SendBackKeeps(cfg, s, j);
    }
  }

  lemma NetShrinks(cfg: Config, s: System, msg: Message, s': System)
    requires |s.procs| > 0 && NetInv(cfg, s) && |s'.procs| == |s.procs| && s'.procs[0] == s.procs[0]
    requires s'.net == s.net - multiset{msg}
    ensures NetInv(cfg, s')
  {
    assert forall x :: x in s'.net ==> x in s.net && s'.net[x] <= s.net[x];
  }

  /** The input of iteration k reaches worker j: it goes to work, or keeps the input for later. */
  lemma InputArrives(cfg: Config, j: nat, w: Process, left: nat, k: nat)
    requires j > 0 && WorkerRounds(cfg, j, w) && w.accepted == []
    requires WorkerAt(cfg, j, w, MasterWaiting(left), k, true, false, false)
    ensures var out := Incoming(cfg, cfg.base + j, w, DataMsg(cfg, j, k));
            && out.sent == [] && WorkerRounds(cfg, j, out.p) && out.p.accepted == []
            && WorkerAt(cfg, j, out.p, MasterWaiting(left), k, false, false, false)
  {
    var q := w.(inbox := w.inbox + [DataCall(cfg, j, k)]);
    assert q.inbox == [DataCall(cfg, j, k)];
    ReceiveInput(cfg, j, q, k);
  }

  lemma InputDelivered(cfg: Config, s: System, j: nat, w: Process, msg: Message)
    requires SetInv(cfg, s) && 1 <= j < cfg.members && s.procs[0].phase.MasterWaiting?
    requires msg in s.net && msg == DataMsg(cfg, j, s.procs[0].iteration)
    requires WorkerRounds(cfg, j, w) && w.accepted == []
    requires WorkerAt(cfg, j, w, s.procs[0].phase, s.procs[0].iteration, false, false, false)
    ensures SetInv(cfg, System(s.procs[j := w], s.net - multiset{msg}))
  {
    var k := s.procs[0].iteration;
    var s' := System(s.procs[j := w], s.net - multiset{msg});
    NetShrinks(cfg, s, msg, s');
    assert WorkerInv(cfg, s, j);
    forall i | 1 <= i < cfg.members ensures WorkerInv(cfg, s', i) {
      assert WorkerInv(cfg, s, i);
      if i != j {
        NetFrame(s.net, msg, DataMsg(cfg, i, k));
        NetFrame(s.net, msg, ResultMsg(cfg, i, k));
        WorkerFrame(cfg, s, s', i);
      }
    }
  }

  /** An input in flight is that of the master's iteration, for a worker that still waits for it. */
  lemma InputIsAwaited(cfg: Config, s: System, msg: Message)
    requires SetInv(cfg, s) && msg in s.net && 1 <= msg.dest - cfg.base < cfg.members
    ensures var (j, m) := (msg.dest - cfg.base, s.procs[0]);
            && m.phase.MasterWaiting? && msg == DataMsg(cfg, j, m.iteration)
            && WorkerRounds(cfg, j, s.procs[j]) && s.procs[j].accepted == []
            && WorkerAt(cfg, j, s.procs[j], m.phase, m.iteration, true, false, false)
  {
    assert WorkerInv(cfg, s, msg.dest - cfg.base);
  }

  lemma QuietDelivery(cfg: Config, s: System, msg: Message)
    requires msg in s.net && 1 <= msg.dest - cfg.base < |s.procs|
    requires Incoming(cfg, msg.dest, s.procs[msg.dest - cfg.base], msg).sent == []
    ensures var (j, p) := (msg.dest - cfg.base, Incoming(cfg, msg.dest, s.procs[msg.dest - cfg.base], msg).p);
            Step(cfg, s, Delivery(msg)) == System(s.procs[j := p], s.net - multiset{msg})
  {}

  lemma WorkerDeliveryKeeps(cfg: Config, s: System, msg: Message)
    requires SetInv(cfg, s) && msg in s.net && 1 <= msg.dest - cfg.base < cfg.members
    ensures SetInv(cfg, Step(cfg, s, Delivery(msg)))
    ensures Step(cfg, s, Delivery(msg)).procs[0] == s.procs[0]
  {
    var j, m := msg.dest - cfg.base, s.procs[0];
    InputIsAwaited(cfg, s, msg);
    InputArrives(cfg, j, s.procs[j], m.phase.left, m.iteration);
    QuietDelivery(cfg, s, msg);
    InputDelivered(cfg, s, j, Incoming(cfg, msg.dest, s.procs[j], msg).p, msg);
  }

  // ---------------------------------------------------------------- whole runs

  lemma StartKeeps(cfg: Config, s: System, j: nat)
    requires ValidConfig(cfg) && cfg.workersSet >= 2 && Inv(cfg, s) && Enabled(cfg, s, StartOf(j))
    ensures Inv(cfg, Step(cfg, s, StartOf(j)))
  {
    if j == 0 {
      MasterStartKeeps(cfg, s);
    } else {
      WorkerStartOrCreated(cfg, s, j);
    }
  }

  lemma LocalKeeps(cfg: Config, s: System, j: nat)
    requires ValidConfig(cfg) && cfg.workersSet >= 2 && Inv(cfg, s) && Enabled(cfg, s, LocalOf(j))
    ensures Inv(cfg, Step(cfg, s, LocalOf(j)))
  {
    if j == 0 {
      MasterLocalKeeps(cfg, s);
    } else {
      WorkerLocalKeeps(cfg, s, j);
      assert Step(cfg, s, LocalOf(j)) == Apply(s, j, LocalDone(cfg, cfg.base + j, s.procs[j]));
    }
  }

  lemma StepKeeps(cfg: Config, s: System, e: SetEvent)
    requires ValidConfig(cfg) && cfg.workersSet >= 2 && Inv(cfg, s) && Enabled(cfg, s, e)
    ensures Inv(cfg, Step(cfg, s, e))
  {
    match e
    case StartOf(j) => StartKeeps(cfg, s, j);
    case LocalOf(j) => LocalKeeps(cfg, s, j);
    case Delivery(m) =>
      if m.dest == cfg.base {
        AcceptKeeps(cfg, s, m);
      } else {
        WorkerDeliveryKeeps(cfg, s, m);
      }
  }

  lemma {:induction false} ReachableInv(cfg: Config, events: seq<SetEvent>)
    requires ValidConfig(cfg) && cfg.workersSet >= 2
    ensures Inv(cfg, Execute(cfg, events))
  {
    if events == [] {
      var s := Init(cfg);
      assert forall j :: 1 <= j < cfg.members ==> WorkerInv(cfg, s, j);
    } else {
      var before, e := events[..|events| - 1], events[|events| - 1];
      ReachableInv(cfg, before);
      if Enabled(cfg, Execute(cfg, before), e) {
        StepKeeps(cfg, Execute(cfg, before), e);
      }
    }
  }

  /** Under every interleaving a worker is in the master's iteration or in the next one. */
  lemma WorkersKeepUp(cfg: Config, events: seq<SetEvent>, j: nat)
    requires ValidConfig(cfg) && cfg.workersSet >= 2 && 1 <= j < cfg.members
    ensures var s := Execute(cfg, events);
            s.procs[0].iteration <= s.procs[j].iteration <= s.procs[0].iteration + 1
  {
    ReachableInv(cfg, events);
    assert WorkerInv(cfg, Execute(cfg, events), j);
  }

  /** Round k of the master consists of exactly one result of every worker, all produced in
      iteration k, although it receives from any sender and messages name no iteration. */
  lemma RoundsAreExact(cfg: Config, events: seq<SetEvent>, k: nat, j: nat)
    requires ValidConfig(cfg) && cfg.workersSet >= 2 && 1 <= j < cfg.members
    requires 1 <= k <= |Execute(cfg, events).procs[0].rounds|
    ensures var round := Execute(cfg, events).procs[0].rounds[k - 1];
            && |round| == cfg.members - 1
            && multiset(round)[ResultCall(cfg, j, k)] == 1
            && forall c :: c in round ==> c.tag == k && 1 <= c.sender - cfg.base < cfg.members
  {
    ReachableInv(cfg, events);
    var round := Execute(cfg, events).procs[0].rounds[k - 1];
    assert CompleteRound(cfg, round, k);
    AcceptedCoverWorkers(cfg, round, k);
    DistinctCount(round, ResultCall(cfg, j, k));
  }

  lemma {:induction false} DistinctCount(s: seq<Call>, c: Call)
    requires Distinct(s)
    ensures multiset(s)[c] == if c in s then 1 else 0
  {
    if s != [] {
      var n := |s| - 1;
      assert s == s[..n] + [s[n]];
      DistinctCount(s[..n], c);
    }
  }

  /** A worker's iteration k always works on the input delivered for iteration k. */
  lemma InputsAreExact(cfg: Config, events: seq<SetEvent>, k: nat, j: nat)
    requires ValidConfig(cfg) && cfg.workersSet >= 2 && 1 <= j < cfg.members
    requires 1 <= k <= |Execute(cfg, events).procs[j].rounds|
    ensures Execute(cfg, events).procs[j].rounds[k - 1] == [DataCall(cfg, j, k)]
  {
    ReachableInv(cfg, events);
    assert WorkerInv(cfg, Execute(cfg, events), j);
  }

  /** A worker is never in a phase of the master. */
  lemma WorkerCounter(cfg: Config, s: System, j: nat)
    requires SetInv(cfg, s) && 1 <= j < cfg.members
    ensures Counts(s.procs[j].phase) ==> Counter(s.procs[j].phase) == 1
    ensures !s.procs[j].phase.MasterWaiting?
  {
    assert WorkerInv(cfg, s, j);
  }

  lemma MasterCounter(cfg: Config, m: Process)
    requires ValidConfig(cfg) && cfg.workersSet >= 2 && MasterInv(cfg, m)
    ensures Counts(m.phase) ==> 1 <= Counter(m.phase) <= cfg.workersSet
    ensures m.phase.MasterWaiting? ==> Counter(m.phase) + |m.accepted| == cfg.workersSet - 1
  {}

  /** The counter of outstanding responses never wraps: whenever any member of the set waits for a
      response that is counted, the counter that will go down is between 1 and the set size; and while
      the master collects it is exactly the number of results not accepted yet. */
  lemma CounterNeverWraps(cfg: Config, events: seq<SetEvent>, j: nat)
    requires ValidConfig(cfg) && cfg.workersSet >= 2 && j < cfg.members
    ensures var p := Execute(cfg, events).procs[j];
            && (Counts(p.phase) ==> 1 <= Counter(p.phase) <= cfg.workersSet)
            && (p.phase.MasterWaiting? ==> Counter(p.phase) + |p.accepted| == cfg.workersSet - 1)
  {
    var s := Execute(cfg, events);
    ReachableInv(cfg, events);
    if j == 0 {
      MasterCounter(cfg, s.procs[0]);
    } else {
      WorkerCounter(cfg, s, j);
    }
  }
}
