/** How ranks are grouped into sets of one master and its workers, and who connects to whom. */
module Ranks {
  import opened Arith
  import opened Wrappers

  const MPI_MASTER_RANK: nat := 0

  predicate IsMaster(workersSet: nat, rank: nat) {
    if workersSet == 0 then rank == MPI_MASTER_RANK else rank % workersSet == 0
  }

  function GetMyMaster(workersSet: nat, rank: nat): nat {
    if workersSet == 0 then MPI_MASTER_RANK else (rank / workersSet) * workersSet
  }

  predicate IsThisWorkerInMyRange(workersSet: nat, master: nat, rank: nat) {
    workersSet == 0 || (IsMaster(workersSet, master) && master < rank < master + workersSet)
  }

  /** The process with rank `a` opens a connection to `b`. */
  predicate Connects(workersSet: nat, a: nat, b: nat) {
    a != b && (GetMyMaster(workersSet, a) == b || IsThisWorkerInMyRange(workersSet, a, b))
  }

  datatype Error = NoProcesses | SetTooLarge | NotMultiple

  /** Member j of the set led by master m. */
  lemma MemberOfSet(w: nat, m: nat, j: nat)
    requires j < w && IsMaster(w, m)
    ensures GetMyMaster(w, m + j) == m && (IsMaster(w, m + j) <==> j == 0)
  {
    var q := m / w;
    assert m == q * w;
    QuotientUnique(w, q, j);
    QuotientUnique(w, q, 0);
  }

  /** `getMyMaster` picks the one master whose range holds the rank; the sets partition the ranks. */
  lemma MasterIsUnique(w: nat, rank: nat, m: nat)
    requires w > 0
    ensures IsMaster(w, GetMyMaster(w, rank)) && GetMyMaster(w, rank) <= rank < GetMyMaster(w, rank) + w
    ensures GetMyMaster(w, GetMyMaster(w, rank)) == GetMyMaster(w, rank)
    ensures IsMaster(w, rank) <==> GetMyMaster(w, rank) == rank
    ensures IsThisWorkerInMyRange(w, m, rank) <==> (m == GetMyMaster(w, rank) && !IsMaster(w, rank))
  {
    var q := rank / w;
    assert rank == q * w + rank % w;
    QuotientUnique(w, q, 0);
    MemberOfSet(w, q * w, 0);
    if IsMaster(w, m) && m < rank < m + w {
      MemberOfSet(w, m, rank - m);
    }
  }

  /** Every set is complete when the number of processes is a multiple of the set size. */
  lemma SetsAreComplete(w: nat, processes: nat, m: nat)
    requires w > 0 && processes % w == 0 && m < processes && IsMaster(w, m)
    ensures m + w <= processes
  {
    var a, b := m / w, processes / w;
    assert m == a * w && processes == b * w;
    MulStrict(a, b, w);
    MulStrict(b, a, w);
  }

  /** Two ranks connect exactly when one is the other's master, and then both sides open it. */
  lemma ConnectionsAreMutual(w: nat, a: nat, b: nat)
    requires w > 0
    ensures Connects(w, a, b) <==> Connects(w, b, a)
    ensures Connects(w, a, b) <==> a != b && (GetMyMaster(w, a) == b || GetMyMaster(w, b) == a)
  {
    MasterIsUnique(w, a, b);
    MasterIsUnique(w, b, a);
  }

  /** The destinations of a master's deliveries are exactly the connected workers of its set, and a
      worker's results go to the master it is connected to. */
  lemma SendsUseConnections(w: nat, processes: nat, m: nat, i: nat)
    requires w > 0 && processes % w == 0 && m < processes && IsMaster(w, m)
    ensures m < i < m + w <==> Connects(w, m, i)
    ensures m < i < m + w ==>
              i < processes && !IsMaster(w, i) && GetMyMaster(w, i) == m && Connects(w, i, GetMyMaster(w, i))
  {
    SetsAreComplete(w, processes, m);
    MasterIsUnique(w, m, i);
    MasterIsUnique(w, i, m);
    if m < i < m + w {
      MemberOfSet(w, m, i - m);
    }
  }

  /** The machine of rank x is one the process connects to; `allToAll` counts only where there are no sets. */
  predicate Configured(myRank: nat, workersSet: nat, allToAll: bool, x: nat) {
    if workersSet == 0 then allToAll && x != myRank else Connects(workersSet, myRank, x)
  }

  /** The connections a process configures: the lines of the machines file that it connects to. */
  function Connections(ranks: seq<nat>, myRank: nat, workersSet: nat, allToAll: bool): seq<nat> {
    if ranks == [] then []
    else
      var (front, last) := (ranks[..|ranks| - 1], ranks[|ranks| - 1]);
      var before := Connections(front, myRank, workersSet, allToAll);
      if Configured(myRank, workersSet, allToAll, last) then before + [last] else before
  }

  /** Each of them is there as often as in the file, and nothing else is. */
  lemma {:induction false} ConnectionsAreExact(ranks: seq<nat>, myRank: nat, workersSet: nat, allToAll: bool, x: nat)
    ensures multiset(Connections(ranks, myRank, workersSet, allToAll))[x] ==
            if Configured(myRank, workersSet, allToAll, x) then multiset(ranks)[x] else 0
  {
    if ranks != [] {
      var front := ranks[..|ranks| - 1];
      assert ranks == front + [ranks[|ranks| - 1]];
      ConnectionsAreExact(front, myRank, workersSet, allToAll, x);
    }
  }

  lemma {:induction false} ConnectionsAreConfigured(ranks: seq<nat>, myRank: nat, workersSet: nat, allToAll: bool,
                                                    x: nat)
    ensures x in Connections(ranks, myRank, workersSet, allToAll) <==>
            x in ranks && Configured(myRank, workersSet, allToAll, x)
  {
    ConnectionsAreExact(ranks, myRank, workersSet, allToAll, x);
    assert x in Connections(ranks, myRank, workersSet, allToAll) <==>
           multiset(Connections(ranks, myRank, workersSet, allToAll))[x] > 0;
    assert x in ranks <==> multiset(ranks)[x] > 0;
  }

  /** Which processes of the machines file a process connects to: with sets, its own master and those
      whose master it is; without, all others or none. */
  lemma PeersAreExact(ranks: seq<nat>, myRank: nat, workersSet: nat, allToAll: bool, x: nat)
    ensures x in Connections(ranks, myRank, workersSet, allToAll) <==>
            && x in ranks && x != myRank
            && if workersSet > 0 then GetMyMaster(workersSet, myRank) == x || GetMyMaster(workersSet, x) == myRank
               else allToAll
  {
    ConnectionsAreConfigured(ranks, myRank, workersSet, allToAll, x);
    if workersSet > 0 {
      ConnectionsAreMutual(workersSet, myRank, x);
    }
  }

  /** A worker and its master are in each other's list of connections, when both are in the file. */
  lemma MasterAndWorkerConnect(ranks: seq<nat>, workersSet: nat, allToAll: bool, worker: nat)
    requires workersSet > 0 && worker in ranks && GetMyMaster(workersSet, worker) in ranks
    requires !IsMaster(workersSet, worker)
    ensures var master := GetMyMaster(workersSet, worker);
            && master in Connections(ranks, worker, workersSet, allToAll)
            && worker in Connections(ranks, master, workersSet, allToAll)
  {
    var master := GetMyMaster(workersSet, worker);
    MasterIsUnique(workersSet, worker, master);
    PeersAreExact(ranks, worker, workersSet, allToAll, master);
    PeersAreExact(ranks, master, workersSet, allToAll, worker);
  }

  /** Without sets rank 0 is everybody's master and everybody is in its range. */
  lemma WithoutSets(rank: nat, m: nat)
    ensures (IsMaster(0, rank) <==> rank == 0) && GetMyMaster(0, rank) == 0 && IsThisWorkerInMyRange(0, m, rank)
  {}

  lemma ConnectionsNext(ranks: seq<nat>, i: nat, myRank: nat, workersSet: nat, allToAll: bool)
    requires i < |ranks|
    ensures Connections(ranks[..i + 1], myRank, workersSet, allToAll) ==
            Connections(ranks[..i], myRank, workersSet, allToAll)
            + if Configured(myRank, workersSet, allToAll, ranks[i]) then [ranks[i]] else []
  {
    assert ranks[..i + 1][..i] == ranks[..i];
  }

  method ParseMachinesFile(ranks: seq<nat>, myRank: nat, workersSet: nat, allToAll: bool)
    returns (r: Result<seq<nat>, Error>)
    ensures r == Err(NoProcesses) <==> ranks == []
    ensures r == Err(SetTooLarge) <==> ranks != [] && workersSet > |ranks|
    ensures r == Err(NotMultiple) <==>
              0 < workersSet <= |ranks| && |ranks| % workersSet != 0 && exists x :: x in ranks && x != myRank
    ensures r.Ok? ==> r.value == Connections(ranks, myRank, workersSet, allToAll)
  {
    if |ranks| == 0 {
      return Err(NoProcesses);
    }
    if workersSet > |ranks| {
      return Err(SetTooLarge);
    }
    var connections: seq<nat> := [];
    for i := 0 to |ranks|
      invariant workersSet > 0 && |ranks| % workersSet != 0 ==> forall k :: 0 <= k < i ==> ranks[k] == myRank
      invariant connections == Connections(ranks[..i], myRank, workersSet, allToAll)
    {
      ConnectionsNext(ranks, i, myRank, workersSet, allToAll);
      if myRank != ranks[i] {
        if workersSet == 0 {
          if allToAll {
            connections := connections + [ranks[i]];
          }
        } else {
          if |ranks| % workersSet != 0 {
            assert ranks[i] in ranks;
            return Err(NotMultiple);
          }
          var master := GetMyMaster(workersSet, myRank);
          if master == ranks[i] || IsThisWorkerInMyRange(workersSet, myRank, ranks[i]) {
            connections := connections + [ranks[i]];
          }
        }
      }
    }
    assert ranks[..|ranks|] == ranks;
    r := Ok(connections);
  }
}
