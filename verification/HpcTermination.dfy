/** A worker set never deadlocks and always finishes, exactly when it has a worker. */
module HpcTermination {
  import opened MpiMatching
  import opened HpcProcess
  import opened HpcSet
  import opened HpcSafety

  predicate AllFinished(s: System) {
    forall j :: 0 <= j < |s.procs| ==> s.procs[j].phase == Finished
  }

  // ---------------------------------------------------------------- progress

  /** A worker whose result the waiting master still lacks can take a step, or its message can. */
  lemma LaggingWorkerMoves(cfg: Config, s: System, j: nat) returns (e: SetEvent)
    requires SetInv(cfg, s) && 1 <= j < cfg.members && s.procs[0].phase.MasterWaiting?
    requires ResultCall(cfg, j, s.procs[0].iteration) !in s.procs[0].accepted
    ensures Enabled(cfg, s, e)
  {
    assert WorkerInv(cfg, s, j);
    var k := s.procs[0].iteration;
    if DataMsg(cfg, j, k) in s.net {
      e := Delivery(DataMsg(cfg, j, k));
    } else if ResultMsg(cfg, j, k) in s.net {
      e := Delivery(ResultMsg(cfg, j, k));
    } else if s.procs[j].phase == NotStarted {
      e := StartOf(j);
    } else {
      e := LocalOf(j);
    }
  }

  lemma MasterFinishesLast(cfg: Config, s: System)
    requires Inv(cfg, s) && s.procs[0].phase == Finished
    ensures AllFinished(s)
  {
    forall j | 1 <= j < cfg.members ensures s.procs[j].phase == Finished {
      assert WorkerInv(cfg, s, j);
    }
  }

  /** No deadlock: as long as somebody has not finished, some event is enabled. */
  lemma NeverStuck(cfg: Config, s: System) returns (e: SetEvent)
    requires Inv(cfg, s) && !AllFinished(s)
    ensures Enabled(cfg, s, e)
  {
    var m := s.procs[0];
    assert m.phase != Finished by {
      if m.phase == Finished {
        MasterFinishesLast(cfg, s);
      }
    }
    if m.phase == NotStarted {
      e := StartOf(0);
    } else if m.phase.MasterWaiting? {
      AcceptedCoverWorkers(cfg, m.accepted, m.iteration);
      var j :| 1 <= j < cfg.members && ResultCall(cfg, j, m.iteration) !in m.accepted;
      e := LaggingWorkerMoves(cfg, s, j);
    } else {
      e := LocalOf(0);
    }
  }

  // ---------------------------------------------------------------- measure

  function WorkerWork(cfg: Config, w: Process): int {
    if w.phase == Finished then 0
    else (Rounds(cfg) - w.iteration) * 6 +
         match w.phase
         case NotStarted => 8
         case Creating => 7
         case WorkerReceiving => 6
         case WorkerReading => 5
         case WorkerAllocating => 4
         case WorkerProcessing => 3
         case _ => 2
  }

  /** The master's work for the iterations after k. */
  function Rest(cfg: Config, k: nat): int {
    (Rounds(cfg) - k) * (3 * cfg.members)
  }

  lemma RestStep(cfg: Config, k: nat)
    ensures Rest(cfg, k) == Rest(cfg, k + 1) + 3 * cfg.members
  {
    var (a, n3) := (Rounds(cfg) - (k + 1), 3 * cfg.members);
    assert (a + 1) * n3 == a * n3 + n3;
  }

  lemma RestNonNegative(cfg: Config, k: nat)
    requires k <= Rounds(cfg)
    ensures Rest(cfg, k) >= 0
  {
    var (a: nat, n3: nat) := (Rounds(cfg) - k, 3 * cfg.members);
    assert a * n3 >= 0;
  }

  function MasterWork(cfg: Config, m: Process): int {
    if m.phase == Finished then 0
    else Rest(cfg, m.iteration) +
         match m.phase
         case NotStarted => 3 * cfg.members + 1
         case Creating => 3 * cfg.members
         case MasterReading(left) => 2 * cfg.members - 1 + left
         case MasterWaiting(_) => cfg.members
         case MasterWriting(left) => left
         case _ => 0
  }

  function WorkUpTo(cfg: Config, procs: seq<Process>, n: nat): int
    requires n <= |procs|
  {
    if n <= 1 then 0 else WorkUpTo(cfg, procs, n - 1) + WorkerWork(cfg, procs[n - 1])
  }

  /** An upper bound on the number of events still to come. */
  function Work(cfg: Config, s: System): int
    requires |s.procs| > 0
  {
    MasterWork(cfg, s.procs[0]) + WorkUpTo(cfg, s.procs, |s.procs|) + |s.net|
  }

  lemma {:induction false} WorkUpdated(cfg: Config, procs: seq<Process>, j: nat, w: Process, n: nat)
    requires 1 <= j < |procs| && n <= |procs|
    ensures WorkUpTo(cfg, procs[j := w], n) ==
            WorkUpTo(cfg, procs, n) + if j < n then WorkerWork(cfg, w) - WorkerWork(cfg, procs[j]) else 0
  {
    if n > 1 {
      WorkUpdated(cfg, procs, j, w, n - 1);
    }
  }

  lemma {:induction false} WorkSame(cfg: Config, procs: seq<Process>, m: Process, n: nat)
    requires 0 < |procs| && n <= |procs|
    ensures WorkUpTo(cfg, procs[0 := m], n) == WorkUpTo(cfg, procs, n)
  {
    if n > 1 {
      WorkSame(cfg, procs, m, n - 1);
    }
  }

  lemma {:induction false} WorkNonNegative(cfg: Config, s: System, n: nat)
    requires Inv(cfg, s) && n <= |s.procs|
    ensures WorkUpTo(cfg, s.procs, n) >= 0 && MasterWork(cfg, s.procs[0]) >= 0
  {
    if s.procs[0].phase != Finished {
      RestNonNegative(cfg, s.procs[0].iteration);
    }
    if n > 1 {
      WorkNonNegative(cfg, s, n - 1);
      assert WorkerInv(cfg, s, n - 1);
    }
  }

  /** Beginning an iteration costs at most 3n-1 of the work left, messages included. */
  lemma BeginWork(cfg: Config, m: Process)
    requires ValidConfig(cfg) && cfg.workersSet >= 2 && m.inbox == []
    ensures var r := Rest(cfg, m.iteration);
            && (var out := BeginIteration(cfg, m); MasterWork(cfg, out.p) + |out.sent| <= r + 3 * cfg.members - 1)
            && (var out := Deliver(cfg, m); MasterWork(cfg, out.p) + |out.sent| == r + 2 * cfg.members - 1)
  {
    DeliverOutcome(cfg, m);
    DeliveriesLength(cfg, cfg.workersSet, m.iteration);
  }

  lemma NextWork(cfg: Config, m: Process)
    requires ValidConfig(cfg) && cfg.workersSet >= 2 && m.inbox == [] && 1 <= m.iteration <= Rounds(cfg)
    ensures var out := NextIteration(cfg, m);
            MasterWork(cfg, out.p) + |out.sent| <= Rest(cfg, m.iteration)
  {
    var q := m.(iteration := m.iteration + 1);
    if q.iteration <= cfg.numIterations {
      BeginWork(cfg, q);
      RestStep(cfg, m.iteration);
    } else {
      assert Rounds(cfg) == m.iteration;
    }
  }

  /** The master's own events use up work. */
  lemma MasterEventWorks(cfg: Config, m: Process)
    requires ValidConfig(cfg) && cfg.workersSet >= 2 && MasterInv(cfg, m)
    ensures m.phase == NotStarted ==>
              var out := Start(cfg, cfg.base, m); MasterWork(cfg, out.p) + |out.sent| < MasterWork(cfg, m)
    ensures HasLocalRequest(m) ==>
              var out := LocalDone(cfg, cfg.base, m); MasterWork(cfg, out.p) + |out.sent| < MasterWork(cfg, m)
  {
    BeginWork(cfg, m);
    if m.phase.MasterWriting? && m.phase.left == 1 {
      NextWork(cfg, m);
    }
  }

  /** A result taken out of the network is worth at least what the master does with it. */
  lemma AcceptWorks(cfg: Config, m: Process, msg: Message)
    requires ValidConfig(cfg) && cfg.workersSet >= 2 && MasterInv(cfg, m) && m.phase.MasterWaiting?
    requires msg.op == Send && msg.size == ResultSize(cfg)
    ensures var out := Incoming(cfg, cfg.base, m, msg); MasterWork(cfg, out.p) + |out.sent| <= MasterWork(cfg, m)
  {
    CollectOne(cfg, m, msg, m.phase.left);
    var q := Taking(cfg, m, Received(msg, cfg.base));
    NextWork(cfg, q.(accepted := [], rounds := q.rounds + [q.accepted]));
  }

  /** The worker's own events use up work; the message it sends counts as one. */
  lemma WorkerEventWorks(cfg: Config, s: System, j: nat)
    requires SetInv(cfg, s) && 1 <= j < cfg.members && s.procs[0].iteration <= Rounds(cfg)
    ensures s.procs[j].phase == NotStarted ==>
              var out := Start(cfg, cfg.base + j, s.procs[j]);
              WorkerWork(cfg, out.p) + |out.sent| < WorkerWork(cfg, s.procs[j])
    ensures HasLocalRequest(s.procs[j]) ==>
              var out := LocalDone(cfg, cfg.base + j, s.procs[j]);
              WorkerWork(cfg, out.p) + |out.sent| < WorkerWork(cfg, s.procs[j])
  {
    assert WorkerInv(cfg, s, j);
    var w := s.procs[j];
    if w.phase == NotStarted || w.phase == Creating {
      if w.inbox == [] {
        ReceiveNothing(cfg, w);
      } else {
        ReceiveInput(cfg, j, w, s.procs[0].iteration);
      }
    } else {
      WorkerLocalOutcome(cfg, j, w);
      ReceiveNothing(cfg, w.(iteration := w.iteration + 1));
    }
  }

  lemma InputWorks(cfg: Config, s: System, msg: Message)
    requires SetInv(cfg, s) && msg in s.net && 1 <= msg.dest - cfg.base < cfg.members
    ensures var (w, out) := (s.procs[msg.dest - cfg.base], Incoming(cfg, msg.dest, s.procs[msg.dest - cfg.base], msg));
            out.sent == [] && WorkerWork(cfg, out.p) <= WorkerWork(cfg, w)
  {
    InputIsAwaited(cfg, s, msg);
    var j := msg.dest - cfg.base;
    var q := s.procs[j].(inbox := s.procs[j].inbox + [Received(msg, msg.dest)]);
    assert q.inbox == [DataCall(cfg, j, s.procs[0].iteration)];
    ReceiveInput(cfg, j, q, s.procs[0].iteration);
  }

  /** The work of the system when process j goes from its state to `out`, which removes `taken`
      messages from the network. */
  lemma WorkApplied(cfg: Config, s: System, j: nat, out: Outcome, net: multiset<Message>)
    requires j < |s.procs|
    ensures Work(cfg, Apply(System(s.procs, net), j, out)) ==
            Work(cfg, s) - |s.net| + |net| + |out.sent| +
            if j == 0 then MasterWork(cfg, out.p) - MasterWork(cfg, s.procs[0])
            else WorkerWork(cfg, out.p) - WorkerWork(cfg, s.procs[j])
  {
    if j == 0 {
      WorkSame(cfg, s.procs, out.p, |s.procs|);
    } else {
      WorkUpdated(cfg, s.procs, j, out.p, |s.procs|);
    }
  }

  lemma LocalEventWorks(cfg: Config, s: System, e: SetEvent)
    requires ValidConfig(cfg) && cfg.workersSet >= 2 && Inv(cfg, s) && Enabled(cfg, s, e) && !e.Delivery?
    ensures Work(cfg, Step(cfg, s, e)) < Work(cfg, s)
  {
    var j := e.member;
    var out := if e.StartOf? then Start(cfg, cfg.base + j, s.procs[j]) else LocalDone(cfg, cfg.base + j, s.procs[j]);
    WorkApplied(cfg, s, j, out, s.net);
    if j == 0 {
      MasterEventWorks(cfg, s.procs[0]);
    } else {
      UnfinishedMaster(cfg, s, j);
      WorkerEventWorks(cfg, s, j);
    }
  }

  lemma DeliveryWorks(cfg: Config, s: System, msg: Message)
    requires ValidConfig(cfg) && cfg.workersSet >= 2 && Inv(cfg, s) && Enabled(cfg, s, Delivery(msg))
    ensures Work(cfg, Step(cfg, s, Delivery(msg))) < Work(cfg, s)
  {
    var j := msg.dest - cfg.base;
    WorkApplied(cfg, s, j, Incoming(cfg, msg.dest, s.procs[j], msg), s.net - multiset{msg});
    if j == 0 {
      ResultIsFresh(cfg, s, msg);
      AcceptWorks(cfg, s.procs[0], msg);
    } else {
      InputWorks(cfg, s, msg);
    }
  }

  /** Every event leaves less work than there was. */
  lemma EveryEventWorks(cfg: Config, s: System, e: SetEvent)
    requires ValidConfig(cfg) && cfg.workersSet >= 2 && Inv(cfg, s) && Enabled(cfg, s, e)
    ensures Work(cfg, Step(cfg, s, e)) < Work(cfg, s)
  {
    match e
    case Delivery(m) => DeliveryWorks(cfg, s, m);
    case _ => LocalEventWorks(cfg, s, e);
  }

  /** While a worker has something to do of its own, the master has not finished. */
  lemma UnfinishedMaster(cfg: Config, s: System, j: nat)
    requires Inv(cfg, s) && 1 <= j < cfg.members
    requires s.procs[j].phase == NotStarted || HasLocalRequest(s.procs[j])
    ensures s.procs[0].iteration <= Rounds(cfg)
  {
    assert WorkerInv(cfg, s, j);
  }

  // ---------------------------------------------------------------- main results

  lemma {:induction false} LegalRunsAreBounded(cfg: Config, events: seq<SetEvent>)
    requires ValidConfig(cfg) && cfg.workersSet >= 2 && Legal(cfg, events)
    ensures |events| + Work(cfg, Execute(cfg, events)) <= Work(cfg, Init(cfg))
    ensures |events| <= Work(cfg, Init(cfg))
  {
    ReachableInv(cfg, events);
    WorkNonNegative(cfg, Execute(cfg, events), cfg.members);
    if events != [] {
      var before, e := events[..|events| - 1], events[|events| - 1];
      LegalRunsAreBounded(cfg, before);
      ReachableInv(cfg, before);
      EveryEventWorks(cfg, Execute(cfg, before), e);
    }
  }

  lemma {:induction false} InitialWork(cfg: Config, n: nat)
    requires 0 < n <= cfg.members
    ensures WorkUpTo(cfg, Init(cfg).procs, n) == (n - 1) * (6 * Rounds(cfg) + 2)
  {
    if n > 1 {
      InitialWork(cfg, n - 1);
      assert (n - 1) * (6 * Rounds(cfg) + 2) == (n - 2) * (6 * Rounds(cfg) + 2) + (6 * Rounds(cfg) + 2);
    }
  }

  /** No run, whatever the interleaving, has more events than this. */
  lemma RunsAreShort(cfg: Config, events: seq<SetEvent>)
    requires ValidConfig(cfg) && cfg.workersSet >= 2 && Legal(cfg, events)
    ensures |events| <= 3 * cfg.members * Rounds(cfg) + 1 + (cfg.members - 1) * (6 * Rounds(cfg) + 2)
  {
    LegalRunsAreBounded(cfg, events);
    WorkOfInit(cfg);
  }

  lemma WorkOfInit(cfg: Config)
    requires ValidConfig(cfg)
    ensures Work(cfg, Init(cfg)) == 3 * cfg.members * Rounds(cfg) + 1 + (cfg.members - 1) * (6 * Rounds(cfg) + 2)
  {
    InitialWork(cfg, cfg.members);
    var (rounds, n3) := (Rounds(cfg), 3 * cfg.members);
    assert (rounds - 1) * n3 + n3 == rounds * n3;
  }

  lemma FinishedSetIsClean(cfg: Config, s: System, j: nat)
    requires Inv(cfg, s) && AllFinished(s) && j < cfg.members
    ensures s.net == multiset{} && s.procs[j].inbox == [] && |s.procs[j].rounds| == Rounds(cfg)
  {
    assert s.procs[0].phase == Finished;
    assert forall x :: x !in s.net;
    if j > 0 {
      assert WorkerInv(cfg, s, j);
    }
  }

  /** A run that cannot go on has completed: everybody is finished, every round was counted, and no
      message or call is left over. */
  lemma StuckMeansComplete(cfg: Config, events: seq<SetEvent>, j: nat)
    requires ValidConfig(cfg) && cfg.workersSet >= 2 && j < cfg.members
    requires forall e :: !Enabled(cfg, Execute(cfg, events), e)
    ensures var s := Execute(cfg, events);
            s.net == multiset{} && s.procs[j].phase == Finished &&
            s.procs[j].inbox == [] && |s.procs[j].rounds| == Rounds(cfg)
  {
    ReachableInv(cfg, events);
    var s := Execute(cfg, events);
    if AllFinished(s) {
      FinishedSetIsClean(cfg, s, j);
    } else {
      var e := NeverStuck(cfg, s);
    }
  }

  lemma {:induction false} CanComplete(cfg: Config, events: seq<SetEvent>) returns (all: seq<SetEvent>)
    requires ValidConfig(cfg) && cfg.workersSet >= 2 && Legal(cfg, events)
    ensures events <= all && Legal(cfg, all) && AllFinished(Execute(cfg, all))
    decreases Work(cfg, Init(cfg)) - |events|
  {
    ReachableInv(cfg, events);
    LegalRunsAreBounded(cfg, events);
    if AllFinished(Execute(cfg, events)) {
      all := events;
    } else {
      var e := NeverStuck(cfg, Execute(cfg, events));
      assert (events + [e])[..|events|] == events;
      LegalRunsAreBounded(cfg, events + [e]);
      all := CanComplete(cfg, events + [e]);
    }
  }

  // ---------------------------------------------------------------- sets without workers

  /** With a set size of 0 or 1 the master delivers to nobody and waits for results for ever. */
  ghost predicate Starved(cfg: Config, s: System) {
    && |s.procs| == cfg.members > 0
    && s.net == multiset{}
    && s.procs[0].inbox == [] && s.procs[0].iteration == 1
    && (match s.procs[0].phase
        case NotStarted | Creating | MasterReading(_) | MasterWaiting(_) => true
        case _ => false)
    && forall j :: 1 <= j < cfg.members ==> Early(s.procs[j], s.procs[j].iteration) && s.procs[j].inbox == []
  }

  lemma StarvedMasterStays(cfg: Config, m: Process)
    requires cfg.workersSet < 2 && m.inbox == [] && m.iteration == 1
    requires m.phase == NotStarted || m.phase == Creating || m.phase.MasterReading?
    ensures var out := if m.phase == NotStarted then Start(cfg, cfg.base, m) else LocalDone(cfg, cfg.base, m);
            && out.sent == [] && out.p.inbox == [] && out.p.iteration == 1
            && (out.p.phase == Creating || out.p.phase.MasterReading? || out.p.phase.MasterWaiting?)
  {
    DeliverOutcome(cfg, m);
  }

  lemma StarvedWorkerStays(cfg: Config, rank: nat, w: Process)
    requires rank != cfg.base && w.inbox == [] && Early(w, w.iteration) && w.phase != WorkerReceiving
    ensures var out := if w.phase == NotStarted then Start(cfg, rank, w) else LocalDone(cfg, rank, w);
            out.sent == [] && out.p.inbox == [] && Early(out.p, out.p.iteration)
  {
    ReceiveNothing(cfg, w);
  }

  lemma StarvedStays(cfg: Config, s: System, e: SetEvent)
    requires cfg.workersSet < 2 && Starved(cfg, s) && Enabled(cfg, s, e)
    ensures Starved(cfg, Step(cfg, s, e))
  {
    var j := e.member;
    if j == 0 {
      StarvedMasterStays(cfg, s.procs[0]);
    } else {
      StarvedWorkerStays(cfg, cfg.base + j, s.procs[j]);
    }
  }

  lemma {:induction false} StarvedForEver(cfg: Config, events: seq<SetEvent>)
    requires ValidConfig(cfg) && cfg.workersSet < 2
    ensures Starved(cfg, Execute(cfg, events))
  {
    if events != [] {
      var before, e := events[..|events| - 1], events[|events| - 1];
      StarvedForEver(cfg, before);
      if Enabled(cfg, Execute(cfg, before), e) {
        StarvedStays(cfg, Execute(cfg, before), e);
      }
    }
  }

  ghost predicate CompletedBy(cfg: Config, events: seq<SetEvent>) {
    AllFinished(Execute(cfg, events))
  }

  /** The exact condition: a worker set can finish if and only if its size is at least two. */
  lemma FinishesIffItHasWorkers(cfg: Config)
    requires ValidConfig(cfg)
    ensures (exists events :: CompletedBy(cfg, events)) <==> cfg.workersSet >= 2
  {
    if cfg.workersSet >= 2 {
      var all := CanComplete(cfg, []);
      assert CompletedBy(cfg, all);
    } else {
      forall events ensures !CompletedBy(cfg, events) {
        StarvedForEver(cfg, events);
      }
    }
  }
}
