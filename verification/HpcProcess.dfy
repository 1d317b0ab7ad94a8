/**
 One process of the master/worker application, as seen between two events.

 A handler of the program runs through several of its states before it waits again. The functions
 below give where it ends up and what it sends: the phases are the points at which it waits.
 */
module HpcProcess {
  import opened Arith
  import opened MpiMatching

  const METADATA_MSG_SIZE: nat := 64
  const WORD: nat := 0x1_0000_0000

  /** A worker set: `base` is the rank of its master and `members` the number of its processes. */
  datatype Config = Config(base: nat, members: nat, workersSet: nat, numIterations: nat,
                           workersRead: bool, workersWrite: bool, sliceToWorkersKB: nat, sliceToMasterKB: nat)

  predicate ValidConfig(cfg: Config) {
    cfg.workersSet < WORD && cfg.members > 0 && (cfg.workersSet > 0 ==> cfg.members == cfg.workersSet)
  }

  function DataSize(cfg: Config): nat {
    if !cfg.workersRead then (cfg.sliceToWorkersKB * KB) % WORD else METADATA_MSG_SIZE
  }

  function ResultSize(cfg: Config): nat {
    if !cfg.workersWrite then (cfg.sliceToMasterKB * KB) % WORD else METADATA_MSG_SIZE
  }

  datatype Phase =
    | NotStarted | Creating
    | MasterReading(left: nat) | MasterWaiting(left: nat) | MasterWriting(left: nat)
    | WorkerReceiving | WorkerReading | WorkerAllocating | WorkerProcessing | WorkerWriting
    | Finished

  /** `inbox` holds the calls that arrived and were not consumed. `accepted` and `rounds` are history:
      the calls consumed in the current iteration, and those of the completed ones. */
  datatype Process = Process(phase: Phase, iteration: nat, inbox: seq<Call>,
                             accepted: seq<Call>, rounds: seq<seq<Call>>)

  datatype Outcome = Outcome(p: Process, sent: seq<Message>)

  const FRESH := Process(NotStarted, 1, [], [], [])

  /** An unsigned 32-bit counter goes down by one. */
  function Minus1(x: nat): nat {
    if x == 0 then WORD - 1 else x - 1
  }

  // ---------------------------------------------------------------- worker

  function ReadOrAllocate(cfg: Config, p: Process): Process {
    p.(phase := if cfg.workersRead then WorkerReading else WorkerAllocating)
  }

  /** The worker asks for its input. */
  function Receive(cfg: Config, p: Process): Process {
    var i := OldestFit(p.inbox, Wanted(Send, cfg.base, DataSize(cfg)));
    if i == |p.inbox| then p.(phase := WorkerReceiving)
    else ReadOrAllocate(cfg, p.(inbox := RemoveAt(p.inbox, i), rounds := p.rounds + [[p.inbox[i]]]))
  }

  function SendBack(cfg: Config, rank: nat, p: Process): Outcome {
    var result := Message(Send, rank, cfg.base, ResultSize(cfg), p.iteration);
    var q := p.(iteration := p.iteration + 1);
    Outcome(if q.iteration > cfg.numIterations then q.(phase := Finished) else Receive(cfg, q), [result])
  }

  function WriteOrSendBack(cfg: Config, rank: nat, p: Process): Outcome {
    if cfg.workersWrite then Outcome(p.(phase := WorkerWriting), []) else SendBack(cfg, rank, p)
  }

  // ---------------------------------------------------------------- master

  /** One message for each of the ranks base+1 .. base+n-1. */
  function Deliveries(cfg: Config, n: nat, tag: nat): (s: seq<Message>) {
    if n <= 1 then []
    else Deliveries(cfg, n - 1, tag) + [Message(Send, cfg.base, cfg.base + n - 1, DataSize(cfg), tag)]
  }

  /** The master waits for `left` more results and takes those that are already there. */
  function Collect(cfg: Config, p: Process, left: nat): Outcome
    decreases |p.inbox|, 0
  {
    var i := OldestFit(p.inbox, Wanted(Send, ANY_SENDER, ResultSize(cfg)));
    if i == |p.inbox| then Outcome(p.(phase := MasterWaiting(left)), [])
    else TakeResult(cfg, p.(inbox := RemoveAt(p.inbox, i), accepted := p.accepted + [p.inbox[i]]), left)
  }

  /** A result has been consumed: the counter goes down, and at zero the iteration is complete. */
  function TakeResult(cfg: Config, p: Process, left: nat): Outcome
    decreases |p.inbox|, 5
  {
    if Minus1(left) == 0 then AllResults(cfg, p) else Collect(cfg, p, Minus1(left))
  }

  function AllResults(cfg: Config, p: Process): Outcome
    decreases |p.inbox|, 4
  {
    var q := p.(accepted := [], rounds := p.rounds + [p.accepted]);
    if !cfg.workersWrite then Outcome(q.(phase := MasterWriting(cfg.workersSet)), [])
    else NextIteration(cfg, q)
  }

  function NextIteration(cfg: Config, p: Process): Outcome
    decreases |p.inbox|, 3
  {
    var q := p.(iteration := p.iteration + 1);
    if q.iteration > cfg.numIterations then Outcome(q.(phase := Finished), []) else BeginIteration(cfg, q)
  }

  function BeginIteration(cfg: Config, p: Process): Outcome
    decreases |p.inbox|, 2
  {
    if !cfg.workersRead then Outcome(p.(phase := MasterReading(cfg.workersSet)), []) else Deliver(cfg, p)
  }

  function Deliver(cfg: Config, p: Process): Outcome
    decreases |p.inbox|, 1
  {
    var r := Collect(cfg, p, Minus1(cfg.workersSet));
    r.(sent := Deliveries(cfg, cfg.workersSet, p.iteration) + r.sent)
  }

  // ---------------------------------------------------------------- events

  predicate HasLocalRequest(p: Process) {
    match p.phase
    case NotStarted | WorkerReceiving | Finished | MasterWaiting(_) => false
    case _ => true
  }

  /** The process waits for a response that its counter of outstanding responses counts. */
  predicate Counts(phase: Phase) {
    match phase
    case Creating | WorkerReading | WorkerWriting => true
    case MasterReading(_) | MasterWaiting(_) | MasterWriting(_) => true
    case _ => false
  }

  /** What the counter holds then. */
  function Counter(phase: Phase): nat
    requires Counts(phase)
  {
    match phase
    case MasterReading(left) => left
    case MasterWaiting(left) => left
    case MasterWriting(left) => left
    case _ => 1
  }

  /** The start event fires. Whoever writes the results creates the file first. */
  function Start(cfg: Config, rank: nat, p: Process): Outcome {
    if rank == cfg.base then
      if !cfg.workersWrite then Outcome(p.(phase := Creating), []) else BeginIteration(cfg, p)
    else
      if cfg.workersWrite then Outcome(p.(phase := Creating), []) else Outcome(Receive(cfg, p), [])
  }

  /** The one local request of the process (file, memory or CPU) is answered. */
  function LocalDone(cfg: Config, rank: nat, p: Process): Outcome {
    match p.phase
    case Creating => if rank == cfg.base then BeginIteration(cfg, p) else Outcome(Receive(cfg, p), [])
    case MasterReading(left) =>
      if Minus1(left) > 0 then Outcome(p.(phase := MasterReading(Minus1(left))), []) else Deliver(cfg, p)
    case MasterWriting(left) =>
      if Minus1(left) > 0 then Outcome(p.(phase := MasterWriting(Minus1(left))), []) else NextIteration(cfg, p)
    case WorkerReading => Outcome(p.(phase := WorkerAllocating), [])
    case WorkerAllocating => Outcome(p.(phase := WorkerProcessing), [])
    case WorkerProcessing => WriteOrSendBack(cfg, rank, p)
    case WorkerWriting => SendBack(cfg, rank, p)
    case _ => Outcome(p, [])
  }

  /** A message arrives: it is queued and, if the process is blocked in a receive, matched. */
  function Incoming(cfg: Config, rank: nat, p: Process, m: Message): Outcome {
    var q := p.(inbox := p.inbox + [Received(m, rank)]);
    match p.phase
    case MasterWaiting(left) => Collect(cfg, q, left)
    case WorkerReceiving => Outcome(Receive(cfg, q), [])
    case _ => Outcome(q, [])
  }
}
