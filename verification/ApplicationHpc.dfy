/**
 The master/worker application as its handlers run it: `CalculateNextState` and the helpers it calls
 call each other until the process has to wait. Every handler is proved to end where the phase model
 of `HpcProcess` says, and to send exactly the messages it says.
 */
module ApplicationHpc {
  import opened Wrappers
  import opened MpiMatching
  import opened MpiEndpoint
  import opened HpcProcess
  import Ranks

  datatype State =
    | Init
    | AtMasterReading | AtMasterDelivering | AtMasterWaitingResults | AtMasterWriting
    | AtWorkerReceiving | AtWorkerReading | AtWorkerAllocating
    | AtWorkerProcessing | AtWorkerWriting | AtWorkerSendingBack

  datatype LocalRequest = CreateFile | ReadFile | WriteFile | AllocMemory | UseCpu

  datatype IoResult = IoOk | FileNotFound | DataOutOfBounds | DiskFull | UnknownResult

  datatype Error = StateError | ErrorInResponse(result: IoResult)

  predicate IsMasterState(s: State) {
    s.AtMasterReading? || s.AtMasterDelivering? || s.AtMasterWaitingResults? || s.AtMasterWriting?
  }

  /** Who creates the results file. */
  predicate CreatesFile(cfg: Config, rank: nat) {
    (rank == cfg.base) != cfg.workersWrite
  }

  /** Where the process ends up when its state function is called with these fields. */
  function Resume(cfg: Config, rank: nat, state: State, total: nat, created: bool, p: Process): Outcome {
    match state
    case Init =>
      if !created && CreatesFile(cfg, rank) then Outcome(p.(phase := Creating), [])
      else if rank == cfg.base then BeginIteration(cfg, p) else Outcome(Receive(cfg, p), [])
    case AtMasterReading =>
      if total > 0 && !cfg.workersRead then Outcome(p.(phase := MasterReading(total)), []) else Deliver(cfg, p)
    case AtMasterDelivering => Collect(cfg, p, Minus1(cfg.workersSet))
    case AtMasterWaitingResults => TakeResult(cfg, p, total)
    case AtMasterWriting =>
      if total > 0 && !cfg.workersWrite then Outcome(p.(phase := MasterWriting(total)), []) else NextIteration(cfg, p)
    case AtWorkerReceiving => Outcome(ReadOrAllocate(cfg, p), [])
    case AtWorkerReading => Outcome(p.(phase := WorkerAllocating), [])
    case AtWorkerAllocating => Outcome(p.(phase := WorkerProcessing), [])
    case AtWorkerProcessing => WriteOrSendBack(cfg, rank, p)
    case AtWorkerWriting => SendBack(cfg, rank, p)
    case AtWorkerSendingBack => Advance(cfg, rank, p)
  }

  /** `nextIteration` for either role. */
  function Advance(cfg: Config, rank: nat, p: Process): Outcome {
    if rank == cfg.base then NextIteration(cfg, p)
    else
      var q := p.(iteration := p.iteration + 1);
      Outcome(if q.iteration > cfg.numIterations then q.(phase := Finished) else Receive(cfg, q), [])
  }

  // ---------------------------------------------------------------- the phase a step starts from

  /** The functions that compute where a step ends never read the phase it starts from. */
  lemma {:induction false} CollectAnyPhase(cfg: Config, p: Process, left: nat, phase: Phase)
    ensures Collect(cfg, p.(phase := phase), left) == Collect(cfg, p, left)
    decreases |p.inbox|, 0
  {
    var i := OldestFit(p.inbox, Wanted(Send, ANY_SENDER, ResultSize(cfg)));
    if i < |p.inbox| {
      TakeAnyPhase(cfg, p.(inbox := RemoveAt(p.inbox, i), accepted := p.accepted + [p.inbox[i]]), left, phase);
    }
  }

  lemma {:induction false} TakeAnyPhase(cfg: Config, p: Process, left: nat, phase: Phase)
    ensures TakeResult(cfg, p.(phase := phase), left) == TakeResult(cfg, p, left)
    decreases |p.inbox|, 5
  {
    if Minus1(left) == 0 {
      NextAnyPhase(cfg, p.(accepted := [], rounds := p.rounds + [p.accepted]), phase);
    } else {
      CollectAnyPhase(cfg, p, Minus1(left), phase);
    }
  }

  lemma {:induction false} NextAnyPhase(cfg: Config, p: Process, phase: Phase)
    ensures NextIteration(cfg, p.(phase := phase)) == NextIteration(cfg, p)
    decreases |p.inbox|, 3
  {
    BeginAnyPhase(cfg, p.(iteration := p.iteration + 1), phase);
  }

  lemma {:induction false} BeginAnyPhase(cfg: Config, p: Process, phase: Phase)
    ensures BeginIteration(cfg, p.(phase := phase)) == BeginIteration(cfg, p)
    ensures Deliver(cfg, p.(phase := phase)) == Deliver(cfg, p)
    decreases |p.inbox|, 1
  {
    CollectAnyPhase(cfg, p, Minus1(cfg.workersSet), phase);
  }

  lemma TakeLast(cfg: Config, p: Process, left: nat)
    requires Minus1(left) == 0
    ensures var q := p.(accepted := [], rounds := p.rounds + [p.accepted]);
            TakeResult(cfg, p, left) ==
            if !cfg.workersWrite then Outcome(q.(phase := MasterWriting(cfg.workersSet)), []) else NextIteration(cfg, q)
  {
    assert TakeResult(cfg, p, left) == AllResults(cfg, p);
  }

  /** An answered file request resumes the state function with one response fewer to wait for. */
  lemma AnswerResumes(cfg: Config, rank: nat, state: State, total: nat, p: Process)
    requires match state
             case Init => p.phase == Creating
             case AtMasterReading => p.phase == MasterReading(total) && !cfg.workersRead
             case AtMasterWriting => p.phase == MasterWriting(total) && !cfg.workersWrite
             case AtWorkerReading => p.phase == WorkerReading
             case AtWorkerWriting => p.phase == WorkerWriting
             case _ => false
    ensures LocalDone(cfg, rank, p) == Resume(cfg, rank, state, Minus1(total), true, p.(phase := NotStarted))
  {
    BeginAnyPhase(cfg, p, NotStarted);
    NextAnyPhase(cfg, p, NotStarted);
  }

  /** Bounds the calls the state function makes to itself before it waits or consumes a call. */
  function Rank(state: State, total: nat): nat {
    match state
    case AtWorkerAllocating => 2
    case AtWorkerReading => 4
    case AtWorkerReceiving => 6
    case Init => 14
    case AtMasterReading => if total > 0 then 12 else 10
    case AtMasterDelivering => 6
    case AtMasterWaitingResults => 26
    case AtMasterWriting => if total > 0 then 22 else 20
    case AtWorkerSendingBack => 20
    case AtWorkerWriting => 24
    case AtWorkerProcessing => 28
  }

  class ApplicationHPC {
    const cfg: Config
    const myRank: nat
    const mpi: MpiBase

    var currentState: State
    var currentIteration: nat
    var totalResponses: nat
    var createdResultsFile: bool
    /** The start event has fired; the finish event has been scheduled. */
    var started: bool
    var finishing: bool
    /** The local request that has not been answered yet. */
    var pending: Option<LocalRequest>
    /** Everything handed to the network so far. */
    var outbox: seq<Message>

    ghost var accepted: seq<Call>
    ghost var rounds: seq<seq<Call>>

    ghost function PhaseNow(): Phase
      reads this
    {
      if !started then NotStarted
      else if finishing then Finished
      else match currentState
        case Init => Creating
        case AtMasterReading => MasterReading(totalResponses)
        case AtMasterWaitingResults => MasterWaiting(totalResponses)
        case AtMasterWriting => MasterWriting(totalResponses)
        case AtWorkerReceiving => WorkerReceiving
        case AtWorkerReading => WorkerReading
        case AtWorkerAllocating => WorkerAllocating
        case AtWorkerProcessing => WorkerProcessing
        case _ => WorkerWriting
    }

    /** The process as the phase model sees it. */
    ghost function View(): Process
      reads this, mpi
    {
      Process(PhaseNow(), currentIteration, mpi.mpiCallList, accepted, rounds)
    }

    /** The process apart from its phase, as it is inside a handler. */
    ghost function Core(): Process
      reads this, mpi
    {
      Process(NotStarted, currentIteration, mpi.mpiCallList, accepted, rounds)
    }

    ghost predicate Setup()
      reads this
    {
      && ValidConfig(cfg) && mpi.myRank == myRank
      && cfg.base == Ranks.GetMyMaster(cfg.workersSet, myRank)
      && (myRank == cfg.base <==> Ranks.IsMaster(cfg.workersSet, myRank))
      && totalResponses < WORD
      && (currentState != Init ==> (IsMasterState(currentState) <==> myRank == cfg.base))
      && (CreatesFile(cfg, myRank) && (currentState != Init || finishing) ==> createdResultsFile)
    }

    ghost predicate BlockedIn(sender: nat, size: int)
      reads this, mpi
    {
      mpi.currentMpiCall.op == Recv && mpi.currentMpiCall.sender == sender && mpi.currentMpiCall.size == size
    }

    /** Between two events: exactly what the state says is outstanding. */
    ghost predicate Valid()
      reads this, mpi
    {
      && Setup()
      && if !started then
           && currentState == Init && !finishing && !createdResultsFile && pending == None && mpi.currentMpiCall == IDLE
         else if finishing then currentState == Init && pending == None && mpi.currentMpiCall == IDLE
         else match currentState
           case Init =>
             && createdResultsFile && CreatesFile(cfg, myRank)
             && pending == Some(CreateFile) && totalResponses == 1 && mpi.currentMpiCall == IDLE
           case AtMasterReading => pending == Some(ReadFile) && mpi.currentMpiCall == IDLE && !cfg.workersRead
           case AtMasterWaitingResults => pending == None && BlockedIn(ANY_SENDER, ResultSize(cfg))
           case AtMasterWriting => pending == Some(WriteFile) && mpi.currentMpiCall == IDLE && !cfg.workersWrite
           case AtWorkerReceiving => pending == None && BlockedIn(cfg.base, DataSize(cfg))
           case AtWorkerReading => pending == Some(ReadFile) && totalResponses == 1 && mpi.currentMpiCall == IDLE
           case AtWorkerAllocating => pending == Some(AllocMemory) && mpi.currentMpiCall == IDLE
           case AtWorkerProcessing => pending == Some(UseCpu) && mpi.currentMpiCall == IDLE
           case AtWorkerWriting => pending == Some(WriteFile) && totalResponses == 1 && mpi.currentMpiCall == IDLE
           case _ => false
    }

    /** Inside a handler: nothing is outstanding. */
    ghost predicate Running()
      reads this, mpi
    {
      Setup() && started && !finishing && pending == None && mpi.currentMpiCall == IDLE
    }

    constructor (cfg: Config, rank: nat, processes: nat)
      requires ValidConfig(cfg) && cfg.base == Ranks.GetMyMaster(cfg.workersSet, rank)
      ensures Valid() && View() == FRESH && outbox == [] && fresh(mpi)
      ensures this.cfg == cfg && myRank == rank
    {
      this.cfg, myRank := cfg, rank;
      mpi := new MpiBase(rank, processes);
      currentState, currentIteration, totalResponses, createdResultsFile := Init, 1, 0, false;
      started, finishing, pending, outbox := false, false, None, [];
      accepted, rounds := [], [];
      new;
      if cfg.workersSet > 0 {
        Ranks.MasterIsUnique(cfg.workersSet, rank, rank);
      }
    }

    // -------------------------------------------------------------- the state function

    method CalculateNextState()
      requires Running()
      modifies this, mpi
      ensures Valid() && started
      ensures var out := old(Resume(cfg, myRank, currentState, totalResponses, createdResultsFile, Core()));
              View() == out.p && outbox == old(outbox) + out.sent
      decreases |mpi.mpiCallList|, Rank(currentState, totalResponses), 1
    {
      if Ranks.IsMaster(cfg.workersSet, myRank) {
        CalculateMaster();
      } else {
        CalculateWorker();
      }
    }

    method CalculateMaster()
      requires Running() && myRank == cfg.base
      modifies this, mpi
      ensures Valid() && started
      ensures var out := old(Resume(cfg, myRank, currentState, totalResponses, createdResultsFile, Core()));
              View() == out.p && outbox == old(outbox) + out.sent
      decreases |mpi.mpiCallList|, Rank(currentState, totalResponses), 0
    {
      if currentState == Init {
        if !createdResultsFile && !cfg.workersWrite {
          totalResponses := 1;
          createdResultsFile := true;
          pending := Some(CreateFile);
        } else {
          currentState := AtMasterReading;
          totalResponses := cfg.workersSet;
          ReadInputData();
        }
      } else if currentState == AtMasterReading {
        if totalResponses > 0 {
          ReadInputData();
        } else {
          currentState := AtMasterDelivering;
          DeliverData();
        }
      } else if currentState == AtMasterDelivering {
        currentState := AtMasterWaitingResults;
        totalResponses := Minus1(cfg.workersSet);
        ReceivingResults();
      } else if currentState == AtMasterWaitingResults {
        ResultTaken();
      } else if currentState == AtMasterWriting {
        if totalResponses > 0 {
          WrittingData();
        } else {
          currentState := Init;
          NextIteration();
        }
      }
    }

    /** A result has been consumed: one response fewer is left, and at zero the master writes. */
    method ResultTaken()
      requires Running() && currentState == AtMasterWaitingResults
      modifies this, mpi
      ensures Valid() && started
      ensures var out := old(TakeResult(cfg, Core(), totalResponses));
              View() == out.p && outbox == old(outbox) + out.sent
      decreases |mpi.mpiCallList|, Rank(AtMasterWaitingResults, 0) - 1
    {
      totalResponses := Minus1(totalResponses);
      if totalResponses == 0 {
        TakeLast(cfg, Core(), old(totalResponses));
        currentState := AtMasterWriting;
        totalResponses := cfg.workersSet;
        rounds, accepted := rounds + [accepted], [];
        WrittingData();
      } else {
        ReceivingResults();
      }
    }

    method CalculateWorker()
      requires Running() && myRank != cfg.base
      modifies this, mpi
      ensures Valid() && started
      ensures var out := old(Resume(cfg, myRank, currentState, totalResponses, createdResultsFile, Core()));
              View() == out.p && outbox == old(outbox) + out.sent
      decreases |mpi.mpiCallList|, Rank(currentState, totalResponses), 0
    {
      if currentState == Init {
        if !createdResultsFile && cfg.workersWrite {
          totalResponses := 1;
          createdResultsFile := true;
          pending := Some(CreateFile);
        } else {
          currentState := AtWorkerReceiving;
          ReceiveInputData();
        }
      } else if currentState == AtWorkerReceiving {
        currentState := AtWorkerReading;
        ReadInputDataWorkers();
      } else if currentState == AtWorkerReading {
        currentState := AtWorkerAllocating;
        pending := Some(AllocMemory);
      } else if currentState == AtWorkerAllocating {
        currentState := AtWorkerProcessing;
        pending := Some(UseCpu);
      } else if currentState == AtWorkerProcessing {
        currentState := AtWorkerWriting;
        WrittingDataWorkers();
      } else if currentState == AtWorkerWriting {
        currentState := AtWorkerSendingBack;
        SendResults();
      } else if currentState == AtWorkerSendingBack {
        currentState := Init;
        NextIteration();
      }
    }

    method NextIteration()
      requires Running() && currentState == Init
      requires CreatesFile(cfg, myRank) ==> createdResultsFile
      modifies this, mpi
      ensures Valid() && started
      ensures var out := old(Advance(cfg, myRank, Core())); View() == out.p && outbox == old(outbox) + out.sent
      decreases |mpi.mpiCallList|, 16
    {
      currentIteration := currentIteration + 1;
      if currentIteration > cfg.numIterations {
        finishing := true;
      } else {
        CalculateNextState();
      }
    }

    /** The process that was blocked goes on. */
    method ContinueExecution()
      requires Running()
      modifies this, mpi
      ensures Valid() && started
      ensures var out := old(Resume(cfg, myRank, currentState, totalResponses, createdResultsFile, Core()));
              View() == out.p && outbox == old(outbox) + out.sent
      decreases |mpi.mpiCallList|, Rank(currentState, totalResponses) + 1
    {
      CalculateNextState();
    }

    // -------------------------------------------------------------- helpers of the master

    method ReadInputData()
      requires Running() && currentState == AtMasterReading
      modifies this, mpi
      ensures Valid() && started
      ensures var out := old(if !cfg.workersRead then Outcome(Core().(phase := MasterReading(totalResponses)), [])
                             else Deliver(cfg, Core()));
              View() == out.p && outbox == old(outbox) + out.sent
      decreases |mpi.mpiCallList|, Rank(AtMasterReading, 0) + 1
    {
      if !cfg.workersRead {
        pending := Some(ReadFile);
      } else {
        totalResponses := 0;
        CalculateNextState();
      }
    }

    method DeliverData()
      requires Running() && currentState == AtMasterDelivering
      modifies this, mpi
      ensures Valid() && started
      ensures var out := old(Deliver(cfg, Core())); View() == out.p && outbox == old(outbox) + out.sent
      decreases |mpi.mpiCallList|, Rank(AtMasterDelivering, 0) + 1
    {
      var dataSize := DataSize(cfg);
      var i := myRank + 1;
      while i < myRank + cfg.workersSet
        invariant if cfg.workersSet > 0 then myRank + 1 <= i <= myRank + cfg.workersSet else i == myRank + 1
        invariant Running() && Core() == old(Core()) && currentState == AtMasterDelivering
        invariant outbox == old(outbox) + Deliveries(cfg, i - myRank, currentIteration)
      {
        var m := mpi.MpiSend(i, dataSize, currentIteration);
        outbox := outbox + [m];
        i := i + 1;
      }
      assert outbox == old(outbox) + Deliveries(cfg, cfg.workersSet, currentIteration);
      CalculateNextState();
    }

    method ReceivingResults()
      requires Running() && currentState == AtMasterWaitingResults
      modifies this, mpi
      ensures Valid() && started
      ensures var out := old(Collect(cfg, Core(), totalResponses)); View() == out.p && outbox == old(outbox) + out.sent
      decreases |mpi.mpiCallList|, 1
    {
      ghost var i := OldestFit(mpi.mpiCallList, Wanted(Send, ANY_SENDER, ResultSize(cfg)));
      var resumed := mpi.MpiRecv(ANY_SENDER, ResultSize(cfg));
      if resumed {
        accepted := accepted + [old(mpi.mpiCallList)[i]];
        ContinueExecution();
      }
    }

    method WrittingData()
      requires Running() && currentState == AtMasterWriting
      modifies this, mpi
      ensures Valid() && started
      ensures var out := old(if !cfg.workersWrite then Outcome(Core().(phase := MasterWriting(totalResponses)), [])
                             else HpcProcess.NextIteration(cfg, Core()));
              View() == out.p && outbox == old(outbox) + out.sent
      decreases |mpi.mpiCallList|, Rank(AtMasterWriting, 0) + 1
    {
      if !cfg.workersWrite {
        pending := Some(WriteFile);
      } else {
        totalResponses := 0;
        CalculateNextState();
      }
    }

    // -------------------------------------------------------------- helpers of the workers

    method ReceiveInputData()
      requires Running() && currentState == AtWorkerReceiving
      modifies this, mpi
      ensures Valid() && started
      ensures View() == old(Receive(cfg, Core())) && outbox == old(outbox)
      decreases |mpi.mpiCallList|, Rank(AtWorkerReceiving, 0) + 3
    {
      ghost var i := OldestFit(mpi.mpiCallList, Wanted(Send, cfg.base, DataSize(cfg)));
      var resumed := mpi.MpiRecv(Ranks.GetMyMaster(cfg.workersSet, myRank), DataSize(cfg));
      if resumed {
        rounds := rounds + [[old(mpi.mpiCallList)[i]]];
        ContinueExecution();
      }
    }

    method ReadInputDataWorkers()
      requires Running() && currentState == AtWorkerReading
      modifies this, mpi
      ensures Valid() && started
      ensures View() == old(ReadOrAllocate(cfg, Core())) && outbox == old(outbox)
      decreases |mpi.mpiCallList|, Rank(AtWorkerReading, 0) + 1
    {
      if cfg.workersRead {
        totalResponses := 1;
        pending := Some(ReadFile);
      } else {
        totalResponses := 0;
        CalculateNextState();
      }
    }

    method WrittingDataWorkers()
      requires Running() && currentState == AtWorkerWriting
      modifies this, mpi
      ensures Valid() && started
      ensures var out := old(WriteOrSendBack(cfg, myRank, Core())); View() == out.p && outbox == old(outbox) + out.sent
      decreases |mpi.mpiCallList|, Rank(AtWorkerWriting, 0) + 1
    {
      if cfg.workersWrite {
        totalResponses := 1;
        pending := Some(WriteFile);
      } else {
        totalResponses := 0;
        CalculateNextState();
      }
    }

    method SendResults()
      requires Running() && currentState == AtWorkerSendingBack
      modifies this, mpi
      ensures Valid() && started
      ensures var out := old(SendBack(cfg, myRank, Core())); View() == out.p && outbox == old(outbox) + out.sent
      decreases |mpi.mpiCallList|, Rank(AtWorkerSendingBack, 0) + 1
    {
      var m := mpi.MpiSend(Ranks.GetMyMaster(cfg.workersSet, myRank), ResultSize(cfg), currentIteration);
      outbox := outbox + [m];
      CalculateNextState();
    }

    // -------------------------------------------------------------- event handlers

    /** The start delay has passed. */
    method WaitToExecute()
      requires Valid() && !started
      modifies this, mpi
      ensures Valid() && started
      ensures var out := old(Start(cfg, myRank, View())); View() == out.p && outbox == old(outbox) + out.sent
    {
      started := true;
      CalculateNextState();
    }

    /** A file request is answered. An answer that the state does not expect, or any result but success,
        aborts the run. The counter that goes down is the one that the phase model gives. A file is only
        reported created when that was asked for; the program does not look at the state then. */
    method ProcessIOCallResponse(operation: LocalRequest, result: IoResult) returns (r: Result<(), Error>)
      requires Valid() && (operation == CreateFile ==> pending == Some(CreateFile))
      requires operation == CreateFile || operation == ReadFile || operation == WriteFile
      modifies this, mpi
      ensures r.Ok? <==> result == IoOk && old(pending) == Some(operation)
      ensures r.Err? ==> r.error == if old(pending) == Some(operation) then ErrorInResponse(result) else StateError
      ensures r.Err? ==> Valid() && View() == old(View()) && outbox == old(outbox)
      ensures r.Ok? ==> old(Counts(PhaseNow()) && totalResponses == Counter(PhaseNow()))
      ensures r.Ok? ==> Valid()
      ensures r.Ok? ==> var out := old(LocalDone(cfg, myRank, View()));
              View() == out.p && outbox == old(outbox) + out.sent
    {
      if operation == ReadFile {
        if currentState != AtMasterReading && currentState != AtWorkerReading {
          return Err(StateError);
        }
      } else if operation == WriteFile {
        if currentState != AtMasterWriting && currentState != AtWorkerWriting {
          return Err(StateError);
        }
      }
      if result != IoOk {
        return Err(ErrorInResponse(result));
      }
      AnswerResumes(cfg, myRank, currentState, totalResponses, View());
      pending := None;
      totalResponses := Minus1(totalResponses);
      CalculateNextState();
      r := Ok(());
    }

    /** A CPU or a memory request is answered. */
    method ProcessLocalResponse()
      requires Valid() && (pending == Some(UseCpu) || pending == Some(AllocMemory))
      modifies this, mpi
      ensures Valid()
      ensures var out := old(LocalDone(cfg, myRank, View())); View() == out.p && outbox == old(outbox) + out.sent
    {
      pending := None;
      CalculateNextState();
    }

    /** The call that the process was blocked for has been matched. */
    method Matched(ghost c: Call)
      requires Running() && (currentState == AtMasterWaitingResults || currentState == AtWorkerReceiving)
      modifies this, mpi
      ensures Valid()
      ensures old(currentState) == AtMasterWaitingResults ==>
                var out := old(TakeResult(cfg, View().(accepted := accepted + [c]), totalResponses));
                View() == out.p && outbox == old(outbox) + out.sent
      ensures old(currentState) == AtWorkerReceiving ==>
                View() == old(ReadOrAllocate(cfg, View().(rounds := rounds + [[c]]))) && outbox == old(outbox)
    {
      if currentState == AtMasterWaitingResults {
        accepted := accepted + [c];
        TakeAnyPhase(cfg, Core(), totalResponses, MasterWaiting(totalResponses));
      } else {
        rounds := rounds + [[c]];
      }
      ContinueExecution();
    }

    /** A message of another process arrives. */
    method ProcessMPIMessage(m: Message)
      requires Valid() && Queueable(Received(m, myRank))
      modifies this, mpi
      ensures Valid()
      ensures var out := old(Incoming(cfg, myRank, View(), m)); View() == out.p && outbox == old(outbox) + out.sent
    {
      ghost var calls := mpi.mpiCallList + [Received(m, myRank)];
      ghost var i := OldestFit(calls, Search(mpi.currentMpiCall));
      mpi.InsertMpiCall(m);
      var resumed := mpi.Synchronize();
      if resumed {
        Matched(calls[i]);
      }
    }
  }
}
