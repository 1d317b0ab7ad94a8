/** The barrier part of an MPI process: the array of marks, and the handlers that change it. */
module BarrierEndpoint {
  import opened Wrappers
  import opened Barrier

  const MPI_MASTER_RANK: nat := 0

  datatype Message = BarrierDown(source: nat, dest: nat) | BarrierUp(source: nat, dest: nat)

  datatype Error = WrongRank(rank: int)

  /** One UP for every process but the master, in rank order. */
  ghost predicate UpToAll(out: seq<Message>, n: nat) {
    && |out| == (if n == 0 then 0 else n - 1)
    && forall k :: 0 <= k < |out| ==> out[k] == BarrierUp(MPI_MASTER_RANK, k + 1)
  }

  function Dests(out: seq<Message>): multiset<nat> {
    if out == [] then multiset{} else Dests(out[..|out| - 1]) + multiset{out[|out| - 1].dest}
  }

  lemma {:induction false} UpToAllReachesSlaves(out: seq<Message>, n: nat)
    requires n > 0 && UpToAll(out, n)
    ensures Dests(out) == Slaves(n)
  {
    if n > 1 {
      UpToAllReachesSlaves(out[..|out| - 1], n - 1);
    }
  }

  /** What a DOWN does to the system, as seen from the marks alone. */
  lemma DownStep(s: System, i: nat)
    requires Sized(s) && Enabled(s, DeliverDown(i))
    ensures var (s', marks) := (Step(s, DeliverDown(i)), s.marks[i := Down]);
            && Sized(s') && (s'.left[0] > s.left[0] <==> AllDown(marks))
            && s'.marks == (if AllDown(marks) then Repeat(Up, |marks|) else marks)
            && s'.blocked[0] == (s.blocked[0] && !AllDown(marks))
            && s'.ups == (if AllDown(marks) then s.ups + Slaves(|marks|) else s.ups)
  {}

  class BarrierProcess {
    const myRank: nat
    const numProcesses: nat
    const barriers: array<Mark>
    var inBarrier: bool

    ghost predicate Valid()
      reads this
    {
      barriers.Length == numProcesses && myRank < numProcesses
    }

    /** This process is the master of the system `s`. */
    ghost predicate MasterOf(s: System)
      reads this, barriers
    {
      Valid() && Sized(s) && s.marks == barriers[..] && s.blocked[0] == inBarrier
    }

    /** This process is a slave of the system `s`. */
    ghost predicate SlaveOf(s: System)
      reads this
    {
      && myRank != MPI_MASTER_RANK && myRank < numProcesses
      && Sized(s) && |s.marks| == numProcesses && s.blocked[myRank] == inBarrier
    }

    constructor (rank: nat, processes: nat)
      requires rank < processes
      ensures Valid() && myRank == rank && numProcesses == processes
      ensures !inBarrier && barriers[..] == Repeat(Up, processes) && fresh(barriers)
    {
      myRank, numProcesses := rank, processes;
      barriers := new Mark[processes];
      inBarrier := false;
      new;
      InitBarriers();
    }

    method InitBarriers()
      requires Valid()
      modifies barriers
      ensures barriers[..] == Repeat(Up, numProcesses)
    {
      for i := 0 to numProcesses
        invariant forall k :: 0 <= k < i ==> barriers[k] == Up
      {
        barriers[i] := Up;
      }
    }

    /** Looks for an unmarked process; when there is none, clears the marks and releases everybody. */
    method CheckBarriers() returns (out: seq<Message>, resumed: bool)
      requires Valid()
      modifies this, barriers
      ensures resumed == AllDown(old(barriers[..]))
      ensures resumed ==> barriers[..] == Repeat(Up, numProcesses) && UpToAll(out, numProcesses) && !inBarrier
      ensures !resumed ==> barriers[..] == old(barriers[..]) && out == [] && inBarrier == old(inBarrier)
    {
      var allDown, currentProcess := true, 0;
      while currentProcess < numProcesses && allDown
        invariant 0 <= currentProcess <= numProcesses
        invariant forall k :: 0 <= k < currentProcess ==> barriers[k] == Down
        invariant !allDown ==> currentProcess < numProcesses && barriers[currentProcess] == Up
        decreases numProcesses - currentProcess, allDown
      {
        if barriers[currentProcess] == Up {
          allDown := false;
        } else {
          currentProcess := currentProcess + 1;
        }
      }
      out, resumed := [], allDown;
      if !allDown {
        assert barriers[..][currentProcess] == Up;
        return;
      }
      InitBarriers();
      for p := 1 to numProcesses
        invariant UpToAll(out, p)
      {
        out := out + [BarrierUp(MPI_MASTER_RANK, p)];
      }
      inBarrier := false;
    }

    /** The process calls the barrier: the master marks itself, a slave sends a DOWN. */
    method MpiBarrier() returns (out: seq<Message>, resumed: bool)
      requires Valid()
      modifies this, barriers
      ensures myRank != MPI_MASTER_RANK ==>
                out == [BarrierDown(myRank, MPI_MASTER_RANK)] && !resumed && inBarrier &&
                barriers[..] == old(barriers[..])
      ensures myRank != MPI_MASTER_RANK ==>
                forall s :: old(SlaveOf(s)) && Enabled(s, Enter(myRank)) ==>
                  var s' := Step(s, Enter(myRank));
                  SlaveOf(s') && s'.downs == s.downs + multiset{out[0].source} && s'.ups == s.ups && s'.marks == s.marks
      ensures myRank == MPI_MASTER_RANK ==>
                forall s :: old(MasterOf(s)) && Enabled(s, Enter(0)) ==>
                  var s' := Step(s, Enter(0));
                  MasterOf(s') && s'.ups == s.ups + Dests(out) && s'.downs == s.downs && resumed == !inBarrier
    {
      inBarrier := true;
      if myRank == MPI_MASTER_RANK {
        ghost var before := barriers[..];
        barriers[MPI_MASTER_RANK] := Down;
        assert barriers[..] == before[0 := Down];
        out, resumed := CheckBarriers();
        if resumed {
          UpToAllReachesSlaves(out, numProcesses);
        }
      } else {
        out, resumed := [BarrierDown(myRank, MPI_MASTER_RANK)], false;
      }
    }

    /** A DOWN arrives at the master. A sender outside the configured ranks is an error. */
    method MpiBarrierDown(senderProcess: int) returns (r: Result<(seq<Message>, bool), Error>)
      requires Valid()
      modifies this, barriers
      ensures r.Ok? <==> 0 <= senderProcess < numProcesses
      ensures r.Err? ==> barriers[..] == old(barriers[..]) && inBarrier == old(inBarrier)
      ensures r.Ok? ==>
                forall s :: old(MasterOf(s)) && Enabled(s, DeliverDown(senderProcess)) ==>
                  var s' := Step(s, DeliverDown(senderProcess));
                  && MasterOf(s') && s'.ups == s.ups + Dests(r.value.0)
                  && r.value.1 == (s'.left[0] > s.left[0])
    {
      if senderProcess >= numProcesses || senderProcess < 0 {
        return Err(WrongRank(senderProcess));
      }
      ghost var before := barriers[..];
      barriers[senderProcess] := Down;
      assert barriers[..] == before[senderProcess := Down];
      var out, resumed := CheckBarriers();
      if resumed {
        UpToAllReachesSlaves(out, numProcesses);
      }
      r := Ok((out, resumed));
      forall s | old(MasterOf(s)) && Enabled(s, DeliverDown(senderProcess))
        ensures var s' := Step(s, DeliverDown(senderProcess));
                MasterOf(s') && s'.ups == s.ups + Dests(out) && resumed == (s'.left[0] > s.left[0])
      {
        DownStep(s, senderProcess);
      }
    }

    /** An UP arrives: the slave goes on. */
    method MpiBarrierUp() returns (resumed: bool)
      modifies this
      ensures resumed && !inBarrier
      ensures forall s :: old(SlaveOf(s)) && Enabled(s, DeliverUp(myRank)) ==>
                var s' := Step(s, DeliverUp(myRank));
                SlaveOf(s') && s'.left[myRank] == s.left[myRank] + 1 && s'.downs == s.downs && s'.marks == s.marks
    {
      inBarrier := false;
      resumed := true;
    }
  }
}
