/**
 A whole worker set: one master, its workers and the network between them, which may delay and
 reorder messages at will. One event handler is one step.
 */
module HpcSet {
  import opened Arith
  import opened MpiMatching
  import opened HpcProcess

  datatype System = System(procs: seq<Process>, net: multiset<Message>)

  datatype SetEvent = StartOf(member: nat) | LocalOf(member: nat) | Delivery(m: Message)

  function Init(cfg: Config): System {
    System(seq(cfg.members, i => FRESH), multiset{})
  }

  predicate Enabled(cfg: Config, s: System, e: SetEvent) {
    match e
    case StartOf(j) => j < |s.procs| && s.procs[j].phase == NotStarted
    case LocalOf(j) => j < |s.procs| && HasLocalRequest(s.procs[j])
    case Delivery(m) => m in s.net && cfg.base <= m.dest < cfg.base + |s.procs|
  }

  function Apply(s: System, j: nat, out: Outcome): System
    requires j < |s.procs|
  {
    System(s.procs[j := out.p], s.net + multiset(out.sent))
  }

  function Step(cfg: Config, s: System, e: SetEvent): System
    requires Enabled(cfg, s, e)
  {
    match e
    case StartOf(j) => Apply(s, j, Start(cfg, cfg.base + j, s.procs[j]))
    case LocalOf(j) => Apply(s, j, LocalDone(cfg, cfg.base + j, s.procs[j]))
    case Delivery(m) =>
      var j := m.dest - cfg.base;
      Apply(s.(net := s.net - multiset{m}), j, Incoming(cfg, m.dest, s.procs[j], m))
  }

  /** The system after `events`; an event that is not enabled does nothing. */
  function Execute(cfg: Config, events: seq<SetEvent>): (s: System)
    ensures |s.procs| == cfg.members
  {
    if events == [] then Init(cfg)
    else
      var (s, e) := (Execute(cfg, events[..|events| - 1]), events[|events| - 1]);
      if Enabled(cfg, s, e) then Step(cfg, s, e) else s
  }

  /** Every event of the run really happens. */
  predicate Legal(cfg: Config, events: seq<SetEvent>) {
    events != [] ==>
      && Legal(cfg, events[..|events| - 1])
      && Enabled(cfg, Execute(cfg, events[..|events| - 1]), events[|events| - 1])
  }

  // ---------------------------------------------------------------- invariant

  function DataMsg(cfg: Config, j: nat, k: nat): Message {
    Message(Send, cfg.base, cfg.base + j, DataSize(cfg), k)
  }

  function ResultMsg(cfg: Config, j: nat, k: nat): Message {
    Message(Send, cfg.base + j, cfg.base, ResultSize(cfg), k)
  }

  function DataCall(cfg: Config, j: nat, k: nat): Call {
    Received(DataMsg(cfg, j, k), cfg.base + j)
  }

  function ResultCall(cfg: Config, j: nat, k: nat): Call {
    Received(ResultMsg(cfg, j, k), cfg.base)
  }

  /** The loop runs at least once, even when no iteration is asked for. */
  function Rounds(cfg: Config): nat { if cfg.numIterations == 0 then 1 else cfg.numIterations }

  ghost predicate Early(w: Process, k: nat) {
    && (w.phase == NotStarted || w.phase == Creating || w.phase == WorkerReceiving)
    && w.iteration == k && |w.rounds| + 1 == k
  }

  ghost predicate Busy(w: Process, k: nat) {
    && (w.phase == WorkerReading || w.phase == WorkerAllocating ||
        w.phase == WorkerProcessing || w.phase == WorkerWriting)
    && w.iteration == k && |w.rounds| == k
  }

  ghost predicate After(cfg: Config, w: Process, k: nat) {
    && w.phase == (if k + 1 > cfg.numIterations then Finished else WorkerReceiving)
    && w.iteration == k + 1 && |w.rounds| == k
  }

  /** Everything the worker ever consumed was the input of the iteration it was in. */
  ghost predicate WorkerRounds(cfg: Config, j: nat, w: Process) {
    forall i :: 0 <= i < |w.rounds| ==> w.rounds[i] == [DataCall(cfg, j, i + 1)]
  }

  /** Where worker j is, given the phase and iteration k of the master, and whether its input or its
      result of iteration k is in flight or its result was taken. */
  ghost predicate WorkerAt(cfg: Config, j: nat, w: Process, phase: Phase, k: nat, sent: bool, back: bool, taken: bool) {
    match phase
    case NotStarted | Creating | MasterReading(_) => Early(w, k) && w.inbox == []
    case MasterWaiting(_) =>
      || (Early(w, k) && sent && !back && !taken && w.inbox == [])
      || (Early(w, k) && w.phase != WorkerReceiving && !sent && !back && !taken && w.inbox == [DataCall(cfg, j, k)])
      || (Busy(w, k) && !sent && !back && !taken && w.inbox == [])
      || (After(cfg, w, k) && !sent && back != taken && w.inbox == [])
    case MasterWriting(_) => After(cfg, w, k) && w.inbox == []
    case Finished => k > 0 && After(cfg, w, k - 1) && w.inbox == []
    case _ => false
  }

  ghost predicate WorkerInv(cfg: Config, s: System, j: nat)
    requires j < |s.procs|
  {
    var m, w := s.procs[0], s.procs[j];
    var k := m.iteration;
    && WorkerRounds(cfg, j, w)
    && w.accepted == []
    && WorkerAt(cfg, j, w, m.phase, k,
                DataMsg(cfg, j, k) in s.net, ResultMsg(cfg, j, k) in s.net, ResultCall(cfg, j, k) in m.accepted)
  }

  ghost predicate NetInv(cfg: Config, s: System)
    requires |s.procs| > 0
  {
    forall x :: x in s.net ==>
      && s.net[x] == 1 && s.procs[0].phase.MasterWaiting?
      && ((1 <= x.dest - cfg.base < |s.procs| && x == DataMsg(cfg, x.dest - cfg.base, s.procs[0].iteration)) ||
          (1 <= x.source - cfg.base < |s.procs| && x == ResultMsg(cfg, x.source - cfg.base, s.procs[0].iteration)))
  }

  ghost predicate Distinct(s: seq<Call>) {
    forall i, j :: 0 <= i < j < |s| ==> s[i] != s[j]
  }

  /** Results of iteration k, each from a different worker of the set. */
  ghost predicate ResultsOf(cfg: Config, s: seq<Call>, k: nat) {
    && Distinct(s)
    && forall c :: c in s ==> 1 <= c.sender - cfg.base < cfg.members && c == ResultCall(cfg, c.sender - cfg.base, k)
  }

  ghost predicate CompleteRound(cfg: Config, s: seq<Call>, k: nat) {
    |s| == cfg.members - 1 && ResultsOf(cfg, s, k)
  }

  ghost predicate MasterInv(cfg: Config, m: Process) {
    && m.inbox == []
    && 1 <= m.iteration <= Rounds(cfg) + 1
    && (m.phase == Finished <==> m.iteration == Rounds(cfg) + 1)
    && |m.rounds| == (if m.phase.MasterWriting? then m.iteration else m.iteration - 1)
    && (forall i :: 0 <= i < |m.rounds| ==> CompleteRound(cfg, m.rounds[i], i + 1))
    && match m.phase
       case NotStarted | Creating | Finished => m.accepted == []
       case MasterReading(left) => m.accepted == [] && 1 <= left <= cfg.members
       case MasterWriting(left) => m.accepted == [] && 1 <= left <= cfg.members
       case MasterWaiting(left) =>
         ResultsOf(cfg, m.accepted, m.iteration) && left > 0 && |m.accepted| + left == cfg.members - 1
       case _ => false
  }

  /** The network and the workers, seen from where the master is. */
  ghost predicate SetInv(cfg: Config, s: System) {
    && |s.procs| == cfg.members > 0
    && NetInv(cfg, s)
    && forall j :: 1 <= j < cfg.members ==> WorkerInv(cfg, s, j)
  }

  ghost predicate Inv(cfg: Config, s: System) {
    SetInv(cfg, s) && MasterInv(cfg, s.procs[0])
  }

  // ---------------------------------------------------------------- counting accepted results

  function Workers(n: nat): (r: set<int>)
    ensures forall j :: j in r <==> 1 <= j < n
    ensures |r| == if n == 0 then 0 else n - 1
  {
    if n <= 1 then {} else Workers(n - 1) + {n - 1}
  }

  function Members(cfg: Config, s: seq<Call>): set<int> {
    if s == [] then {} else Members(cfg, s[..|s| - 1]) + {s[|s| - 1].sender - cfg.base}
  }

  lemma {:induction false} MemberIsSender(cfg: Config, s: seq<Call>, k: nat, j: int)
    requires forall c :: c in s ==>
               1 <= c.sender - cfg.base < cfg.members && c == ResultCall(cfg, c.sender - cfg.base, k)
    ensures j in Members(cfg, s) <==> 1 <= j < cfg.members && ResultCall(cfg, j, k) in s
  {
    if s != [] {
      var n := |s| - 1;
      assert s == s[..n] + [s[n]];
      MemberIsSender(cfg, s[..n], k, j);
    }
  }

  lemma {:induction false} MembersSize(cfg: Config, s: seq<Call>, k: nat)
    requires ResultsOf(cfg, s, k)
    ensures |Members(cfg, s)| == |s|
  {
    if s != [] {
      var n := |s| - 1;
      var t, c := s[..n], s[n];
      assert forall x :: x in t ==> x in s;
      MembersSize(cfg, t, k);
      MemberIsSender(cfg, t, k, c.sender - cfg.base);
      assert c in s;
      assert c !in t;
    }
  }

  /** With n-1 accepted results every worker is among the senders; with fewer, one is missing. */
  lemma AcceptedCoverWorkers(cfg: Config, s: seq<Call>, k: nat)
    requires cfg.members > 0 && ResultsOf(cfg, s, k) && |s| <= cfg.members - 1
    ensures |s| == cfg.members - 1 <==> forall j :: 1 <= j < cfg.members ==> ResultCall(cfg, j, k) in s
  {
    MembersSize(cfg, s, k);
    forall j ensures j in Members(cfg, s) <==> 1 <= j < cfg.members && ResultCall(cfg, j, k) in s {
      MemberIsSender(cfg, s, k, j);
    }
    CoveredByAll(cfg, s, k, Members(cfg, s));
    SubsetBySize(Members(cfg, s), Workers(cfg.members));
  }

  lemma CoveredByAll(cfg: Config, s: seq<Call>, k: nat, members: set<int>)
    requires forall j :: j in members <==> 1 <= j < cfg.members && ResultCall(cfg, j, k) in s
    ensures members <= Workers(cfg.members)
    ensures members == Workers(cfg.members) <==> forall j :: 1 <= j < cfg.members ==> ResultCall(cfg, j, k) in s
  {}

  lemma {:induction false} DeliveriesCount(cfg: Config, n: nat, k: nat, x: Message)
    ensures multiset(Deliveries(cfg, n, k))[x] ==
            if 1 <= x.dest - cfg.base < n && x == DataMsg(cfg, x.dest - cfg.base, k) then 1 else 0
  {
    if n > 1 {
      DeliveriesCount(cfg, n - 1, k, x);
    }
  }

  // ---------------------------------------------------------------- master steps

  ghost predicate ReadyFor(cfg: Config, j: nat, w: Process, k: nat) {
    Early(w, k) && w.inbox == [] && w.accepted == [] && WorkerRounds(cfg, j, w)
  }

  ghost predicate DoneWith(cfg: Config, j: nat, w: Process, k: nat) {
    After(cfg, w, k) && w.inbox == [] && w.accepted == [] && WorkerRounds(cfg, j, w)
  }

  /** The start of iteration k: nothing in flight and every worker ready for it. */
  ghost predicate Quiet(cfg: Config, s: System) {
    && |s.procs| == cfg.members > 0
    && s.net == multiset{}
    && var m := s.procs[0];
    && m.inbox == [] && m.accepted == [] && 1 <= m.iteration <= Rounds(cfg) && |m.rounds| == m.iteration - 1
    && (forall i :: 0 <= i < |m.rounds| ==> CompleteRound(cfg, m.rounds[i], i + 1))
    && forall j :: 1 <= j < cfg.members ==> ReadyFor(cfg, j, s.procs[j], m.iteration)
  }

  lemma {:induction false} DeliveriesLength(cfg: Config, n: nat, k: nat)
    ensures |Deliveries(cfg, n, k)| == if n == 0 then 0 else n - 1
  {
    if n > 1 {
      DeliveriesLength(cfg, n - 1, k);
    }
  }

  lemma DeliverOutcome(cfg: Config, m: Process)
    requires m.inbox == []
    ensures Deliver(cfg, m) ==
            Outcome(m.(phase := MasterWaiting(Minus1(cfg.workersSet))), Deliveries(cfg, cfg.workersSet, m.iteration))
  {
    assert Collect(cfg, m, Minus1(cfg.workersSet)) == Outcome(m.(phase := MasterWaiting(Minus1(cfg.workersSet))), []);
  }

  lemma DeliverKeeps(cfg: Config, s: System)
    requires ValidConfig(cfg) && cfg.workersSet >= 2 && Quiet(cfg, s)
    ensures Inv(cfg, Apply(s, 0, Deliver(cfg, s.procs[0])))
  {
    var m := s.procs[0];
    DeliverOutcome(cfg, m);
    var s' := Apply(s, 0, Deliver(cfg, m));
    assert s'.procs[0].iteration == m.iteration;
    forall x | x in s'.net
      ensures s'.net[x] == 1 && 1 <= x.dest - cfg.base < cfg.members &&
              x == DataMsg(cfg, x.dest - cfg.base, m.iteration)
    {
      DeliveriesCount(cfg, cfg.workersSet, m.iteration, x);
    }
    forall j | 1 <= j < cfg.members ensures WorkerInv(cfg, s', j) {
      assert ReadyFor(cfg, j, s.procs[j], m.iteration);
      DeliveriesCount(cfg, cfg.workersSet, m.iteration, DataMsg(cfg, j, m.iteration));
      DeliveriesCount(cfg, cfg.workersSet, m.iteration, ResultMsg(cfg, j, m.iteration));
    }
  }

  lemma BeginKeeps(cfg: Config, s: System)
    requires ValidConfig(cfg) && cfg.workersSet >= 2 && Quiet(cfg, s)
    ensures Inv(cfg, Apply(s, 0, BeginIteration(cfg, s.procs[0])))
  {
    if cfg.workersRead {
      DeliverKeeps(cfg, s);
    } else {
      var s' := Apply(s, 0, BeginIteration(cfg, s.procs[0]));
      forall j | 1 <= j < cfg.members ensures WorkerInv(cfg, s', j) {
        assert ReadyFor(cfg, j, s.procs[j], s.procs[0].iteration);
      }
    }
  }

  /** All results of iteration k are in and the master moves on. */
  ghost predicate RoundDone(cfg: Config, s: System) {
    && |s.procs| == cfg.members > 0
    && s.net == multiset{}
    && var m := s.procs[0];
    && m.inbox == [] && m.accepted == [] && 1 <= m.iteration <= Rounds(cfg) && |m.rounds| == m.iteration
    && (forall i :: 0 <= i < |m.rounds| ==> CompleteRound(cfg, m.rounds[i], i + 1))
    && forall j :: 1 <= j < cfg.members ==> DoneWith(cfg, j, s.procs[j], m.iteration)
  }

  lemma RoundDoneBecomesQuiet(cfg: Config, s: System)
    requires RoundDone(cfg, s) && s.procs[0].iteration < cfg.numIterations
    ensures Quiet(cfg, s.(procs := s.procs[0 := s.procs[0].(iteration := s.procs[0].iteration + 1)]))
  {
    var k := s.procs[0].iteration;
    forall j | 1 <= j < cfg.members ensures ReadyFor(cfg, j, s.procs[j], k + 1) {
      assert DoneWith(cfg, j, s.procs[j], k);
    }
  }

  lemma LastRoundFinishes(cfg: Config, s: System)
    requires RoundDone(cfg, s) && s.procs[0].iteration >= cfg.numIterations
    ensures Inv(cfg, Apply(s, 0, NextIteration(cfg, s.procs[0])))
  {
    var s' := Apply(s, 0, NextIteration(cfg, s.procs[0]));
    assert s'.net == multiset{};
    forall j | 1 <= j < cfg.members ensures WorkerInv(cfg, s', j) {
      assert DoneWith(cfg, j, s.procs[j], s.procs[0].iteration);
    }
  }

  lemma NextKeeps(cfg: Config, s: System)
    requires ValidConfig(cfg) && cfg.workersSet >= 2 && RoundDone(cfg, s)
    ensures Inv(cfg, Apply(s, 0, NextIteration(cfg, s.procs[0])))
  {
    var m := s.procs[0];
    if m.iteration >= cfg.numIterations {
      LastRoundFinishes(cfg, s);
    } else {
      var q := m.(iteration := m.iteration + 1);
      var s1 := s.(procs := s.procs[0 := q]);
      RoundDoneBecomesQuiet(cfg, s);
      BeginKeeps(cfg, s1);
      var out := BeginIteration(cfg, q);
      assert NextIteration(cfg, m) == out;
      assert s1.procs[0 := out.p] == s.procs[0 := out.p];
      assert Apply(s1, 0, out) == Apply(s, 0, out);
    }
  }

  /** Before it delivers, and while it writes, the master finds every worker where it expects it. */
  lemma MasterAlone(cfg: Config, s: System)
    requires Inv(cfg, s) && !s.procs[0].phase.MasterWaiting?
    ensures s.procs[0].phase.MasterWriting? ==> RoundDone(cfg, s)
    ensures !s.procs[0].phase.MasterWriting? && s.procs[0].phase != Finished ==> Quiet(cfg, s)
    ensures s.net == multiset{}
  {
    var m := s.procs[0];
    forall j | 1 <= j < cfg.members
      ensures m.phase.MasterWriting? ==> DoneWith(cfg, j, s.procs[j], m.iteration)
      ensures !m.phase.MasterWriting? && m.phase != Finished ==> ReadyFor(cfg, j, s.procs[j], m.iteration)
    {
      assert WorkerInv(cfg, s, j);
    }
  }

  /** A master step that neither sends nor leaves the group of phases it is in. */
  lemma MasterStays(cfg: Config, s: System, p: Process)
    requires Inv(cfg, s) && !s.procs[0].phase.MasterWaiting?
    requires p == s.procs[0].(phase := p.phase) && MasterInv(cfg, p) && !p.phase.MasterWaiting?
    requires s.procs[0].phase.MasterWriting? <==> p.phase.MasterWriting?
    ensures Inv(cfg, Apply(s, 0, Outcome(p, [])))
  {
    var s' := Apply(s, 0, Outcome(p, []));
    MasterAlone(cfg, s);
    forall j | 1 <= j < cfg.members ensures WorkerInv(cfg, s', j) {
      assert WorkerInv(cfg, s, j);
    }
  }

  lemma MasterLocalKeeps(cfg: Config, s: System)
    requires ValidConfig(cfg) && cfg.workersSet >= 2 && Inv(cfg, s)
    requires HasLocalRequest(s.procs[0])
    ensures Inv(cfg, Step(cfg, s, LocalOf(0)))
  {
    var m := s.procs[0];
    MasterAlone(cfg, s);
    match m.phase
    case Creating => BeginKeeps(cfg, s);
    case MasterReading(left) => MasterSliceRead(cfg, s, left);
    case MasterWriting(left) => MasterSliceWritten(cfg, s, left);
    case _ =>
  }

  lemma MasterSliceRead(cfg: Config, s: System, left: nat)
    requires ValidConfig(cfg) && cfg.workersSet >= 2 && Inv(cfg, s) && s.procs[0].phase == MasterReading(left)
    ensures Inv(cfg, Apply(s, 0, LocalDone(cfg, cfg.base, s.procs[0])))
  {
    if left > 1 {
      MasterStays(cfg, s, s.procs[0].(phase := MasterReading(left - 1)));
    } else {
      MasterAlone(cfg, s);
      DeliverKeeps(cfg, s);
    }
  }

  lemma MasterSliceWritten(cfg: Config, s: System, left: nat)
    requires ValidConfig(cfg) && cfg.workersSet >= 2 && Inv(cfg, s) && s.procs[0].phase == MasterWriting(left)
    ensures Inv(cfg, Apply(s, 0, LocalDone(cfg, cfg.base, s.procs[0])))
  {
    if left > 1 {
      MasterStays(cfg, s, s.procs[0].(phase := MasterWriting(left - 1)));
    } else {
      MasterAlone(cfg, s);
      NextKeeps(cfg, s);
    }
  }

  lemma MasterStartKeeps(cfg: Config, s: System)
    requires ValidConfig(cfg) && cfg.workersSet >= 2 && Inv(cfg, s)
    requires s.procs[0].phase == NotStarted
    ensures Inv(cfg, Step(cfg, s, StartOf(0)))
  {
    MasterAlone(cfg, s);
    if cfg.workersWrite {
      BeginKeeps(cfg, s);
    } else {
      MasterStays(cfg, s, s.procs[0].(phase := Creating));
    }
  }
}
