/** The local work of a worker set: which file, memory and CPU requests each member has answered in
    each iteration, in every run. */
module HpcWork {
  import opened MpiMatching
  import opened HpcProcess
  import opened HpcSet
  import HpcSafety

  /** The requests of member j that were answered during its iteration k, in order. A request is named
      by the phase in which it is made. */
  function Log(cfg: Config, events: seq<SetEvent>, j: nat, k: nat): seq<Phase>
    requires j < cfg.members
  {
    if events == [] then []
    else
      var (front, e) := (events[..|events| - 1], events[|events| - 1]);
      var (s, before) := (Execute(cfg, front), Log(cfg, front, j, k));
      if e == LocalOf(j) && Enabled(cfg, s, e) && s.procs[j].iteration == k then before + [s.procs[j].phase]
      else before
  }

  function Reads(n: nat): seq<Phase> {
    if n == 0 then [] else [MasterReading(n)] + Reads(n - 1)
  }

  function Writes(n: nat): seq<Phase> {
    if n == 0 then [] else [MasterWriting(n)] + Writes(n - 1)
  }

  function MasterReads(cfg: Config): seq<Phase> { if cfg.workersRead then [] else Reads(cfg.workersSet) }

  function MasterWrites(cfg: Config): seq<Phase> { if cfg.workersWrite then [] else Writes(cfg.workersSet) }

  function WorkerWrites(cfg: Config): seq<Phase> { if cfg.workersWrite then [WorkerWriting] else [] }

  function WorkerReads(cfg: Config): seq<Phase> { if cfg.workersRead then [WorkerReading] else [] }

  /** The requests of one iteration. */
  function Chores(cfg: Config, j: nat): seq<Phase> {
    if j == 0 then MasterReads(cfg) + MasterWrites(cfg)
    else WorkerReads(cfg) + [WorkerAllocating, WorkerProcessing] + WorkerWrites(cfg)
  }

  /** Whoever writes the results creates the file, before its first iteration. */
  function Creates(cfg: Config, j: nat): seq<Phase> {
    if cfg.workersWrite <==> j > 0 then [Creating] else []
  }

  /** All that member j has to do in iteration k. */
  function Work(cfg: Config, j: nat, k: nat): seq<Phase> {
    if k == 1 then Creates(cfg, j) + Chores(cfg, j) else Chores(cfg, j)
  }

  /** What a member in `phase` still has to do in its iteration. */
  function Left(cfg: Config, j: nat, phase: Phase): seq<Phase> {
    match phase
    case NotStarted => Creates(cfg, j) + Chores(cfg, j)
    case Creating => [Creating] + Chores(cfg, j)
    case MasterReading(left) => Reads(left) + MasterWrites(cfg)
    case MasterWaiting(_) => MasterWrites(cfg)
    case MasterWriting(left) => Writes(left)
    case WorkerReceiving => Chores(cfg, j)
    case WorkerReading => [WorkerReading, WorkerAllocating, WorkerProcessing] + WorkerWrites(cfg)
    case WorkerAllocating => [WorkerAllocating, WorkerProcessing] + WorkerWrites(cfg)
    case WorkerProcessing => [WorkerProcessing] + WorkerWrites(cfg)
    case WorkerWriting => [WorkerWriting]
    case Finished => []
  }

  // ---------------------------------------------------------------- one step

  /** A member goes on from p to q with the requests `done` answered: what was left is what was done
      and what is left now, or with it the iteration ends and the next begins. */
  predicate Moves(cfg: Config, j: nat, p: Process, done: seq<Phase>, q: Process) {
    if q.iteration == p.iteration then
      (p.phase == Finished <==> q.phase == Finished) && Left(cfg, j, p.phase) == done + Left(cfg, j, q.phase)
    else
      && p.phase != Finished && q.iteration == p.iteration + 1 && Left(cfg, j, p.phase) == done
      && (q.phase == Finished || Left(cfg, j, q.phase) == Chores(cfg, j))
  }

  lemma StaysPut(cfg: Config, j: nat, p: Process, q: Process)
    requires q.iteration == p.iteration && q.phase == p.phase
    ensures Moves(cfg, j, p, [], q)
  {
    assert [] + Left(cfg, j, p.phase) == Left(cfg, j, p.phase);
  }

  lemma ReceiveMoves(cfg: Config, j: nat, p: Process)
    requires j > 0
    ensures var q := Receive(cfg, p);
            q.iteration == p.iteration && q.phase != Finished && Left(cfg, j, q.phase) == Chores(cfg, j)
  {}

  lemma SendBackMoves(cfg: Config, j: nat, p: Process)
    requires j > 0 && Left(cfg, j, p.phase) == [p.phase] && p.phase != Finished
    ensures Moves(cfg, j, p, [p.phase], SendBack(cfg, cfg.base + j, p).p)
  {
    ReceiveMoves(cfg, j, p.(iteration := p.iteration + 1));
  }

  lemma WorkerStartMoves(cfg: Config, j: nat, p: Process)
    requires j > 0 && p.phase == NotStarted
    ensures Moves(cfg, j, p, [], Start(cfg, cfg.base + j, p).p)
  {
    ReceiveMoves(cfg, j, p);
    var q := Start(cfg, cfg.base + j, p).p;
    assert [] + Left(cfg, j, q.phase) == Left(cfg, j, q.phase);
    assert [] + Chores(cfg, j) == Chores(cfg, j);
  }

  predicate IsWorkerPhase(phase: Phase) {
    !phase.MasterReading? && !phase.MasterWaiting? && !phase.MasterWriting?
  }

  lemma WorkerLocalMoves(cfg: Config, j: nat, p: Process)
    requires j > 0 && IsWorkerPhase(p.phase) && HasLocalRequest(p)
    ensures Moves(cfg, j, p, [p.phase], LocalDone(cfg, cfg.base + j, p).p)
  {
    if p.phase == Creating {
      ReceiveMoves(cfg, j, p);
    } else if p.phase == WorkerWriting || (p.phase == WorkerProcessing && !cfg.workersWrite) {
      assert Left(cfg, j, p.phase) == [p.phase];
      SendBackMoves(cfg, j, p);
      HpcSafety.WorkerLocalOutcome(cfg, j, p);
    } else {
      var q := LocalDone(cfg, cfg.base + j, p).p;
      assert Left(cfg, j, p.phase) == [p.phase] + Left(cfg, j, q.phase);
    }
  }

  lemma WorkerIncomingMoves(cfg: Config, j: nat, p: Process, m: Message)
    requires j > 0 && IsWorkerPhase(p.phase)
    ensures Moves(cfg, j, p, [], Incoming(cfg, cfg.base + j, p, m).p)
  {
    var q := p.(inbox := p.inbox + [Received(m, cfg.base + j)]);
    if p.phase == WorkerReceiving {
      ReceiveMoves(cfg, j, q);
      assert [] + Chores(cfg, j) == Chores(cfg, j);
    } else {
      StaysPut(cfg, j, p, q);
    }
  }

  /** A master with an empty inbox begins an iteration with all its reads in front of it. */
  lemma BeginMoves(cfg: Config, m: Process)
    requires m.inbox == []
    ensures var q := BeginIteration(cfg, m).p;
            q.iteration == m.iteration && q.phase != Finished && Left(cfg, 0, q.phase) == Chores(cfg, 0)
  {
    DeliverOutcome(cfg, m);
    assert [] + MasterWrites(cfg) == MasterWrites(cfg);
  }

  lemma NextMoves(cfg: Config, m: Process)
    requires m.inbox == []
    ensures var q := NextIteration(cfg, m).p;
            q.iteration == m.iteration + 1 && (q.phase == Finished || Left(cfg, 0, q.phase) == Chores(cfg, 0))
  {
    BeginMoves(cfg, m.(iteration := m.iteration + 1));
  }

  lemma MasterStartMoves(cfg: Config, m: Process)
    requires m.inbox == [] && m.phase == NotStarted
    ensures Moves(cfg, 0, m, [], Start(cfg, cfg.base, m).p)
  {
    BeginMoves(cfg, m);
    assert [] + Left(cfg, 0, Creating) == Left(cfg, 0, Creating);
    assert [] + Chores(cfg, 0) == Chores(cfg, 0);
  }

  lemma MasterLocalMoves(cfg: Config, m: Process)
    requires ValidConfig(cfg) && cfg.workersSet >= 2 && MasterInv(cfg, m) && HasLocalRequest(m)
    ensures Moves(cfg, 0, m, [m.phase], LocalDone(cfg, cfg.base, m).p)
  {
    match m.phase
    case Creating => BeginMoves(cfg, m);
    case MasterReading(left) =>
      DeliverOutcome(cfg, m);
      assert Reads(left) + MasterWrites(cfg) == [m.phase] + (Reads(left - 1) + MasterWrites(cfg));
      assert Reads(0) + MasterWrites(cfg) == MasterWrites(cfg);
    case MasterWriting(left) =>
      assert Writes(left) == [m.phase] + Writes(left - 1);
      NextMoves(cfg, m);
  }

  lemma AllResultsMoves(cfg: Config, m: Process)
    requires m.inbox == [] && m.phase.MasterWaiting?
    ensures Moves(cfg, 0, m, [], AllResults(cfg, m).p)
  {
    var q := m.(accepted := [], rounds := m.rounds + [m.accepted]);
    NextMoves(cfg, q);
    assert [] + MasterWrites(cfg) == MasterWrites(cfg);
  }

  lemma MasterIncomingMoves(cfg: Config, s: System, msg: Message)
    requires Inv(cfg, s) && msg in s.net && msg.dest == cfg.base
    ensures Moves(cfg, 0, s.procs[0], [], Incoming(cfg, cfg.base, s.procs[0], msg).p)
  {
    var m := s.procs[0];
    HpcSafety.ResultIsFresh(cfg, s, msg);
    HpcSafety.CollectOne(cfg, m, msg, m.phase.left);
    var q := HpcSafety.Taking(cfg, m, Received(msg, cfg.base));
    AllResultsMoves(cfg, q);
    assert [] + MasterWrites(cfg) == MasterWrites(cfg);
  }

  // ---------------------------------------------------------------- whole runs

  /** `log` is what member j, now at p, should have answered in iteration k. */
  predicate IsExact(cfg: Config, j: nat, p: Process, k: nat, log: seq<Phase>) {
    if k < p.iteration then log == Work(cfg, j, k)
    else if k > p.iteration || p.phase == Finished then log == []
    else log + Left(cfg, j, p.phase) == Work(cfg, j, k)
  }

  /** Within an iteration the log and what is left always make up the whole work. */
  lemma StaysExact(log: seq<Phase>, left: seq<Phase>, done: seq<Phase>, left': seq<Phase>, work: seq<Phase>)
    requires log + left == work && left == done + left'
    ensures log + done + left' == work
  {
    assert log + done + left' == log + (done + left');
  }

  lemma MoveKeeps(cfg: Config, j: nat, p: Process, done: seq<Phase>, q: Process, k: nat, log: seq<Phase>)
    requires p.iteration > 0 && IsExact(cfg, j, p, k, log) && Moves(cfg, j, p, done, q)
    ensures IsExact(cfg, j, q, k, if k == p.iteration then log + done else log)
  {
    var (left, left') := (Left(cfg, j, p.phase), Left(cfg, j, q.phase));
    if k == p.iteration == q.iteration && p.phase != Finished {
      StaysExact(log, left, done, left', Work(cfg, j, k));
    } else if k == q.iteration && k > p.iteration {
      assert [] + left' == left';
    }
  }

  /** What event e makes of member j. */
  function Member(cfg: Config, j: nat, p: Process, e: SetEvent): Process {
    match e
    case StartOf(i) => if i == j then Start(cfg, cfg.base + j, p).p else p
    case LocalOf(i) => if i == j then LocalDone(cfg, cfg.base + j, p).p else p
    case Delivery(m) => if m.dest == cfg.base + j then Incoming(cfg, m.dest, p, m).p else p
  }

  lemma StepOnMember(cfg: Config, s: System, e: SetEvent, j: nat)
    requires j < |s.procs| && Enabled(cfg, s, e)
    ensures Step(cfg, s, e).procs[j] == Member(cfg, j, s.procs[j], e)
  {}

  function Answered(p: Process, e: SetEvent, j: nat): seq<Phase> {
    if e == LocalOf(j) then [p.phase] else []
  }

  lemma WorkerPhases(cfg: Config, s: System, j: nat)
    requires SetInv(cfg, s) && 1 <= j < cfg.members
    ensures IsWorkerPhase(s.procs[j].phase)
  {
    assert WorkerInv(cfg, s, j);
  }

  lemma WorkerMoves(cfg: Config, p: Process, e: SetEvent, j: nat)
    requires j > 0 && IsWorkerPhase(p.phase)
    requires e == StartOf(j) ==> p.phase == NotStarted
    requires e == LocalOf(j) ==> HasLocalRequest(p)
    ensures Moves(cfg, j, p, Answered(p, e, j), Member(cfg, j, p, e))
  {
    if e == StartOf(j) {
      WorkerStartMoves(cfg, j, p);
    } else if e == LocalOf(j) {
      WorkerLocalMoves(cfg, j, p);
    } else if e.Delivery? && e.m.dest == cfg.base + j {
      WorkerIncomingMoves(cfg, j, p, e.m);
    } else {
      StaysPut(cfg, j, p, p);
    }
  }

  lemma MasterMoves(cfg: Config, s: System, e: SetEvent)
    requires ValidConfig(cfg) && cfg.workersSet >= 2 && Inv(cfg, s) && Enabled(cfg, s, e)
    ensures Moves(cfg, 0, s.procs[0], Answered(s.procs[0], e, 0), Member(cfg, 0, s.procs[0], e))
  {
    var p := s.procs[0];
    if e == StartOf(0) {
      MasterStartMoves(cfg, p);
    } else if e == LocalOf(0) {
      MasterLocalMoves(cfg, p);
    } else if e.Delivery? && e.m.dest == cfg.base {
      MasterIncomingMoves(cfg, s, e.m);
    } else {
      StaysPut(cfg, 0, p, p);
    }
  }

  lemma IterationsArePositive(cfg: Config, s: System, j: nat)
    requires Inv(cfg, s) && j < cfg.members
    ensures s.procs[j].iteration > 0
  {
    if j > 0 {
      assert WorkerInv(cfg, s, j);
    }
  }

  lemma MemberMoves(cfg: Config, s: System, e: SetEvent, j: nat)
    requires ValidConfig(cfg) && cfg.workersSet >= 2 && Inv(cfg, s) && Enabled(cfg, s, e) && j < cfg.members
    ensures s.procs[j].iteration > 0 && Moves(cfg, j, s.procs[j], Answered(s.procs[j], e, j), Step(cfg, s, e).procs[j])
  {
    IterationsArePositive(cfg, s, j);
    StepOnMember(cfg, s, e, j);
    if j == 0 {
      MasterMoves(cfg, s, e);
    } else {
      WorkerPhases(cfg, s, j);
      WorkerMoves(cfg, s.procs[j], e, j);
    }
  }

  lemma ExecuteNext(cfg: Config, front: seq<SetEvent>, e: SetEvent, j: nat, k: nat)
    requires j < cfg.members
    ensures var s := Execute(cfg, front);
            && Execute(cfg, front + [e]) == (if Enabled(cfg, s, e) then Step(cfg, s, e) else s)
            && Log(cfg, front + [e], j, k) ==
               if Enabled(cfg, s, e) && s.procs[j].iteration == k
               then Log(cfg, front, j, k) + Answered(s.procs[j], e, j)
               else Log(cfg, front, j, k)
  {
    assert (front + [e])[..|front + [e]| - 1] == front;
    assert Log(cfg, front, j, k) + [] == Log(cfg, front, j, k);
  }

  lemma LogNext(cfg: Config, front: seq<SetEvent>, e: SetEvent, j: nat, k: nat)
    requires ValidConfig(cfg) && cfg.workersSet >= 2 && j < cfg.members
    requires IsExact(cfg, j, Execute(cfg, front).procs[j], k, Log(cfg, front, j, k))
    ensures IsExact(cfg, j, Execute(cfg, front + [e]).procs[j], k, Log(cfg, front + [e], j, k))
  {
    var (s, log) := (Execute(cfg, front), Log(cfg, front, j, k));
    ExecuteNext(cfg, front, e, j, k);
    if Enabled(cfg, s, e) {
      HpcSafety.ReachableInv(cfg, front);
      MemberMoves(cfg, s, e, j);
      MoveKeeps(cfg, j, s.procs[j], Answered(s.procs[j], e, j), Step(cfg, s, e).procs[j], k, log);
    }
  }

  /** In every run each member has, in each iteration it is past, made exactly the requests of that
      iteration, in their order; in the current one exactly those in front of what is left; and none
      of a later one. */
  lemma {:induction false} LogIsExact(cfg: Config, events: seq<SetEvent>, j: nat, k: nat)
    requires ValidConfig(cfg) && cfg.workersSet >= 2 && j < cfg.members && k > 0
    ensures IsExact(cfg, j, Execute(cfg, events).procs[j], k, Log(cfg, events, j, k))
  {
    if events == [] {
      NothingDone(cfg, j, k);
    } else {
      var (front, e) := (events[..|events| - 1], events[|events| - 1]);
      assert events == front + [e];
      LogIsExact(cfg, front, j, k);
      LogNext(cfg, front, e, j, k);
    }
  }

  lemma NothingDone(cfg: Config, j: nat, k: nat)
    requires j < cfg.members && k > 0
    ensures IsExact(cfg, j, Init(cfg).procs[j], k, [])
  {
    assert [] + Left(cfg, j, NotStarted) == Left(cfg, j, NotStarted);
  }

  /** The number of answered slices of the input, or of the results, in a log. */
  function Slices(log: seq<Phase>, reading: bool): nat {
    if log == [] then 0
    else
      Slices(log[..|log| - 1], reading)
      + if (if reading then log[|log| - 1].MasterReading? else log[|log| - 1].MasterWriting?) then 1 else 0
  }

  lemma {:induction false} SlicesConcat(a: seq<Phase>, b: seq<Phase>, reading: bool)
    ensures Slices(a + b, reading) == Slices(a, reading) + Slices(b, reading)
  {
    if b == [] {
      assert a + b == a;
    } else {
      assert (a + b)[..|a + b| - 1] == a + b[..|b| - 1];
      SlicesConcat(a, b[..|b| - 1], reading);
    }
  }

  lemma {:induction false} SlicesOfReads(n: nat, reading: bool)
    ensures Slices(Reads(n), reading) == if reading then n else 0
  {
    if n > 0 {
      SlicesOfReads(n - 1, reading);
      SlicesConcat([MasterReading(n)], Reads(n - 1), reading);
      assert [MasterReading(n)][..0] == [];
    }
  }

  lemma {:induction false} SlicesOfWrites(n: nat, reading: bool)
    ensures Slices(Writes(n), reading) == if reading then 0 else n
  {
    if n > 0 {
      SlicesOfWrites(n - 1, reading);
      SlicesConcat([MasterWriting(n)], Writes(n - 1), reading);
      assert [MasterWriting(n)][..0] == [];
    }
  }

  lemma SlicesOfWork(cfg: Config, k: nat, reading: bool)
    ensures Slices(MasterReads(cfg), reading) == if reading && !cfg.workersRead then cfg.workersSet else 0
    ensures Slices(MasterWrites(cfg), reading) == if !reading && !cfg.workersWrite then cfg.workersSet else 0
    ensures Slices(Work(cfg, 0, k), reading) == Slices(MasterReads(cfg), reading) + Slices(MasterWrites(cfg), reading)
  {
    SlicesOfReads(cfg.workersSet, reading);
    SlicesOfWrites(cfg.workersSet, reading);
    SlicesConcat(MasterReads(cfg), MasterWrites(cfg), reading);
    SlicesConcat(Creates(cfg, 0), Chores(cfg, 0), reading);
    assert [Creating][..0] == [];
  }

  /** The master has delivered the inputs of iteration k. */
  predicate Delivered(m: Process, k: nat) {
    k < m.iteration || (k == m.iteration && (m.phase.MasterWaiting? || m.phase.MasterWriting?))
  }

  /** In every run a master that reads for its workers has one slice for each member of the set read
      before it delivers, no more and no fewer, and one that does not read has none. */
  lemma MasterReadsEverySlice(cfg: Config, events: seq<SetEvent>, k: nat)
    requires ValidConfig(cfg) && cfg.workersSet >= 2 && k > 0 && Delivered(Execute(cfg, events).procs[0], k)
    ensures Slices(Log(cfg, events, 0, k), true) == if cfg.workersRead then 0 else cfg.workersSet
  {
    var (m, log) := (Execute(cfg, events).procs[0], Log(cfg, events, 0, k));
    LogIsExact(cfg, events, 0, k);
    SlicesOfWork(cfg, k, true);
    if k == m.iteration {
      SlicesConcat(log, Left(cfg, 0, m.phase), true);
      if m.phase.MasterWriting? {
        SlicesOfWrites(m.phase.left, true);
      }
    }
  }

  /** In every run a master that writes for its workers has one slice for each member of the set
      written when it leaves an iteration, and none while it still collects. */
  lemma MasterWritesEverySlice(cfg: Config, events: seq<SetEvent>, k: nat)
    requires ValidConfig(cfg) && cfg.workersSet >= 2 && k > 0
    ensures var (m, log) := (Execute(cfg, events).procs[0], Log(cfg, events, 0, k));
            && (k < m.iteration ==> Slices(log, false) == if cfg.workersWrite then 0 else cfg.workersSet)
            && (k == m.iteration && m.phase.MasterWaiting? ==> Slices(log, false) == 0)
  {
    var (m, log) := (Execute(cfg, events).procs[0], Log(cfg, events, 0, k));
    LogIsExact(cfg, events, 0, k);
    SlicesOfWork(cfg, k, false);
    if k == m.iteration && m.phase.MasterWaiting? {
      SlicesConcat(log, MasterWrites(cfg), false);
    }
  }

  /** When the master has completed round k, every worker of the set has done exactly its chores for
      that iteration: it read, allocated, processed and wrote once each, as the flags say, in this order. */
  lemma WorkersDoTheirChores(cfg: Config, events: seq<SetEvent>, j: nat, k: nat)
    requires ValidConfig(cfg) && cfg.workersSet >= 2 && 1 <= j < cfg.members
    requires 1 <= k <= |Execute(cfg, events).procs[0].rounds|
    ensures Log(cfg, events, j, k) ==
            (if k == 1 && cfg.workersWrite then [Creating] else [])
            + (if cfg.workersRead then [WorkerReading] else [])
            + [WorkerAllocating, WorkerProcessing]
            + (if cfg.workersWrite then [WorkerWriting] else [])
  {
    LogIsExact(cfg, events, j, k);
    WorkOfWorker(cfg, j, k);
    PastCompletedRounds(cfg, events, j, k);
  }

  /** A worker is past every round that the master has completed. */
  lemma PastCompletedRounds(cfg: Config, events: seq<SetEvent>, j: nat, k: nat)
    requires ValidConfig(cfg) && cfg.workersSet >= 2 && 1 <= j < cfg.members
    requires 1 <= k <= |Execute(cfg, events).procs[0].rounds|
    ensures k < Execute(cfg, events).procs[j].iteration
  {
    HpcSafety.ReachableInv(cfg, events);
    assert WorkerInv(cfg, Execute(cfg, events), j);
  }

  lemma WorkOfWorker(cfg: Config, j: nat, k: nat)
    requires j > 0
    ensures Work(cfg, j, k) ==
            (if k == 1 && cfg.workersWrite then [Creating] else [])
            + (if cfg.workersRead then [WorkerReading] else [])
            + [WorkerAllocating, WorkerProcessing]
            + (if cfg.workersWrite then [WorkerWriting] else [])
  {}

  lemma WorkOfMaster(cfg: Config, k: nat)
    ensures Work(cfg, 0, k) ==
            (if k == 1 && !cfg.workersWrite then [Creating] else [])
            + (if cfg.workersRead then [] else Reads(cfg.workersSet))
            + (if cfg.workersWrite then [] else Writes(cfg.workersSet))
  {
    var (c, a, b) := (Creates(cfg, 0), MasterReads(cfg), MasterWrites(cfg));
    assert c + (a + b) == c + a + b && [] + (a + b) == [] + a + b;
  }

  /** In every run the master has, in each iteration it is past, created its file first if it is to write
      and has not yet, and then read and written slice by slice, as the flags say. */
  lemma MasterDoesItsChores(cfg: Config, events: seq<SetEvent>, k: nat)
    requires ValidConfig(cfg) && cfg.workersSet >= 2 && 0 < k < Execute(cfg, events).procs[0].iteration
    ensures Log(cfg, events, 0, k) ==
            (if k == 1 && !cfg.workersWrite then [Creating] else [])
            + (if cfg.workersRead then [] else Reads(cfg.workersSet))
            + (if cfg.workersWrite then [] else Writes(cfg.workersSet))
  {
    LogIsExact(cfg, events, 0, k);
    WorkOfMaster(cfg, k);
  }
}
