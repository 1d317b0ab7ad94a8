/** The messages of a worker set: how large they are, and that they go over configured connections. */
module HpcMessages {
  import opened MpiMatching
  import opened HpcProcess
  import opened HpcSet
  import HpcSafety
  import HpcTermination
  import Ranks

  /** Every message in flight, and so every message when it is sent, is an input from the master to a
      worker or a result from a worker to the master. An input is as large as the slice that the master
      has read, or is a note of 64 bytes when the workers read for themselves; likewise a result and the
      slice that the master writes. Sizes are 32-bit numbers. */
  lemma MessagesAreSlices(cfg: Config, events: seq<SetEvent>, x: Message)
    requires ValidConfig(cfg) && x in Execute(cfg, events).net
    ensures x.op == Send
    ensures x.source == cfg.base ==>
              && 1 <= x.dest - cfg.base < cfg.members
              && x.size == if cfg.workersRead then 64 else (cfg.sliceToWorkersKB * 1024) % 0x1_0000_0000
    ensures x.source != cfg.base ==>
              && 1 <= x.source - cfg.base < cfg.members && x.dest == cfg.base
              && x.size == if cfg.workersWrite then 64 else (cfg.sliceToMasterKB * 1024) % 0x1_0000_0000
  {
    if cfg.workersSet >= 2 {
      HpcSafety.ReachableInv(cfg, events);
    } else {
      HpcTermination.StarvedForEver(cfg, events);
    }
  }

  /** So are the calls that were taken: the inputs a worker has worked on, and the results the master has
      counted in its completed rounds. */
  lemma TakenCallsAreSlices(cfg: Config, events: seq<SetEvent>, j: nat, k: nat, c: Call)
    requires ValidConfig(cfg) && cfg.workersSet >= 2 && j < cfg.members
    requires 1 <= k <= |Execute(cfg, events).procs[j].rounds| && c in Execute(cfg, events).procs[j].rounds[k - 1]
    ensures c.size == if j > 0
                      then (if cfg.workersRead then 64 else (cfg.sliceToWorkersKB * 1024) % 0x1_0000_0000)
                      else (if cfg.workersWrite then 64 else (cfg.sliceToMasterKB * 1024) % 0x1_0000_0000)
  {
    HpcSafety.ReachableInv(cfg, events);
    if j > 0 {
      HpcSafety.InputsAreExact(cfg, events, k, j);
    } else {
      assert CompleteRound(cfg, Execute(cfg, events).procs[0].rounds[k - 1], k);
    }
  }

  /** All members of the set are in the machines file. */
  ghost predicate ListsMembers(cfg: Config, ranks: seq<nat>) {
    forall rank: nat :: cfg.base <= rank < cfg.base + cfg.members ==> rank in ranks
  }

  /** Every message goes to a process that its sender has connected to when it read the machines file, if
      that lists the members of the set. */
  lemma MessagesUseConnections(cfg: Config, events: seq<SetEvent>, x: Message, ranks: seq<nat>, allToAll: bool)
    requires ValidConfig(cfg) && x in Execute(cfg, events).net && Ranks.IsMaster(cfg.workersSet, cfg.base)
    requires ListsMembers(cfg, ranks)
    ensures x.dest in Ranks.Connections(ranks, x.source, cfg.workersSet, allToAll)
  {
    var j := WorkerOf(cfg, events, x);
    WorkerConnects(cfg, j, x.source, x.dest, ranks, allToAll);
  }

  /** The worker that a message comes from or goes to. */
  lemma WorkerOf(cfg: Config, events: seq<SetEvent>, x: Message) returns (j: nat)
    requires ValidConfig(cfg) && x in Execute(cfg, events).net
    ensures 1 <= j < cfg.members == cfg.workersSet
    ensures (x.source == cfg.base && x.dest == cfg.base + j) || (x.source == cfg.base + j && x.dest == cfg.base)
  {
    MessagesAreSlices(cfg, events, x);
    if cfg.workersSet == 0 {
      HpcTermination.StarvedForEver(cfg, events);
    }
    j := if x.source == cfg.base then x.dest - cfg.base else x.source - cfg.base;
  }

  lemma WorkerConnects(cfg: Config, j: nat, from: nat, to: nat, ranks: seq<nat>, allToAll: bool)
    requires 1 <= j < cfg.members == cfg.workersSet && Ranks.IsMaster(cfg.workersSet, cfg.base)
    requires ListsMembers(cfg, ranks)
    requires (from == cfg.base && to == cfg.base + j) || (from == cfg.base + j && to == cfg.base)
    ensures to in Ranks.Connections(ranks, from, cfg.workersSet, allToAll)
  {
    Ranks.MemberOfSet(cfg.workersSet, cfg.base, j);
    Ranks.MasterAndWorkerConnect(ranks, cfg.workersSet, allToAll, cfg.base + j);
  }
}
