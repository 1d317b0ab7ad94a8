/** The matching part of an MPI process: its current call and its list of incoming calls. */
module MpiEndpoint {
  import opened Wrappers
  import opened MatchingRuns
  import opened MpiMatching

  /** The messages of a collective root: one to every other rank, in rank order. */
  ghost predicate ToAllOthers(out: seq<Message>, op: Op, root: nat, numProcesses: nat, size: int) {
    && |out| == (if root < numProcesses then numProcesses - 1 else numProcesses)
    && forall k :: 0 <= k < |out| ==>
         out[k].op == op && out[k].source == root && out[k].size == size &&
         out[k].dest == if k < root then k else k + 1
  }

  class MpiBase {
    const myRank: nat
    const numProcesses: nat
    var currentMpiCall: Call
    var lastSynchroMpiCall: Call
    var mpiCallList: seq<Call>

    function View(): Endpoint
      reads this
    {
      Endpoint(currentMpiCall, mpiCallList, lastSynchroMpiCall)
    }

    constructor (rank: nat, processes: nat)
      ensures myRank == rank && numProcesses == processes
      ensures View() == START.ep
    {
      myRank, numProcesses := rank, processes;
      currentMpiCall, lastSynchroMpiCall, mpiCallList := IDLE, IDLE, [];
    }

    /** Scans the list front to back and stops at the first call that fits. */
    method SearchMpiCall(call: Op, sender: nat, size: int) returns (index: Option<nat>)
      ensures index.Some? ==>
                index.value < |mpiCallList| && index.value == OldestFit(mpiCallList, Wanted(call, sender, size))
      ensures index.None? ==> OldestFit(mpiCallList, Wanted(call, sender, size)) == |mpiCallList|
    {
      index := None;
      var found, i := false, 0;
      ghost var w := Wanted(call, sender, size);
      while i < |mpiCallList| && !found
        invariant 0 <= i <= |mpiCallList|
        invariant found ==> i > 0 && index == Some(i - 1) && Fits(mpiCallList[i - 1], w)
        invariant !found ==> index == None
        invariant forall j :: 0 <= j < (if found then i - 1 else i) ==> !Fits(mpiCallList[j], w)
      {
        var c := mpiCallList[i];
        if sender == ANY_SENDER {
          if c.op == call && c.size == size {
            found, index := true, Some(i);
          }
        } else {
          if c.op == call && c.sender == sender && c.size == size {
            found, index := true, Some(i);
          }
        }
        i := i + 1;
      }
    }

    method InsertMpiCall(m: Message)
      modifies this`mpiCallList
      ensures mpiCallList == old(mpiCallList) + [Received(m, myRank)]
    {
      var newCall := IDLE.(op := m.op, sender := m.source, receiver := myRank, size := m.size, tag := m.tag);
      if newCall.op == Scatter || newCall.op == Bcast {
        newCall := newCall.(root := m.source);
      }
      mpiCallList := mpiCallList + [newCall];
    }

    /** `resumed` tells the caller to continue the execution of the process. */
    method Synchronize() returns (resumed: bool)
      modifies this
      ensures var (ep, taken) := MpiMatching.Synchronize(old(View())); View() == ep && resumed == taken.Some?
    {
      resumed := false;
      var searchCall, searchSender, searchSize := NoValue, NO_VALUE, 0;
      if currentMpiCall.op == NoValue {
        return;
      } else if currentMpiCall.op == Recv {
        searchCall, searchSender, searchSize := Send, currentMpiCall.sender, currentMpiCall.size;
      } else if currentMpiCall.op == Bcast {
        searchCall, searchSender, searchSize := Bcast, currentMpiCall.root, currentMpiCall.size;
      } else if currentMpiCall.op == Scatter {
        searchCall, searchSender, searchSize := Scatter, currentMpiCall.sender, currentMpiCall.size;
      }
      assert Wanted(searchCall, searchSender, searchSize) == Search(currentMpiCall);
      var found := SearchMpiCall(searchCall, searchSender, searchSize);
      if found.Some? {
        var c := mpiCallList[found.value];
        if currentMpiCall.sender == ANY_SENDER {
          currentMpiCall := currentMpiCall.(sender := c.sender);
        }
        lastSynchroMpiCall := currentMpiCall;
        currentMpiCall := IDLE;
        mpiCallList := RemoveAt(mpiCallList, found.value);
        resumed := true;
      }
    }

    /** An incoming SEND, SCATTER or BCAST is queued and matched at once: the arrival step. */
    method ProcessMpiCallRequest(m: Message) returns (resumed: bool)
      requires Queueable(Received(m, myRank))
      modifies this
      ensures forall h: History :: h.ep == old(View()) ==>
                View() == Step(h, Arrive(Received(m, myRank))).ep &&
                resumed == (|Step(h, Arrive(Received(m, myRank))).taken| > |h.taken|)
    {
      InsertMpiCall(m);
      resumed := Synchronize();
    }

    /** The process issues a receive and is matched at once if an earlier call fits. */
    method MpiRecv(sender: nat, size: int) returns (resumed: bool)
      modifies this
      ensures var issued := old(currentMpiCall).(op := Recv, sender := sender, receiver := myRank, size := size);
              var (ep, taken) := MpiMatching.Synchronize(old(View()).(current := issued));
              View() == ep && resumed == taken.Some?
    {
      currentMpiCall := currentMpiCall.(op := Recv, sender := sender, receiver := myRank, size := size);
      resumed := Synchronize();
    }

    /** A send never blocks: the current call is set and cleared again. */
    method MpiSend(receiver: nat, size: int, tag: nat) returns (m: Message)
      modifies this`currentMpiCall
      ensures m == Message(Send, myRank, receiver, size, tag)
      ensures currentMpiCall == IDLE
    {
      currentMpiCall := currentMpiCall.(op := Send, sender := myRank, receiver := receiver, size := size);
      m := Message(currentMpiCall.op, myRank, receiver, size, tag);
      currentMpiCall := IDLE;
    }

    /** Broadcast and scatter differ only in the operation they carry. The root sends to everybody
        else and continues; any other process waits for the root's message. */
    method MpiCollective(op: Op, root: nat, size: int) returns (out: seq<Message>, resumed: bool)
      requires op == Bcast || op == Scatter
      modifies this
      ensures root == myRank ==>
                ToAllOthers(out, op, root, numProcesses, size) && resumed &&
                View() == old(View()).(current := IDLE)
      ensures root != myRank ==>
                var issued :=
                  old(currentMpiCall).(op := op, sender := root, root := root, receiver := myRank, size := size);
                var (ep, taken) := MpiMatching.Synchronize(old(View()).(current := issued));
                out == [] && View() == ep && resumed == taken.Some?
    {
      currentMpiCall := currentMpiCall.(op := op, sender := root, root := root, receiver := myRank, size := size);
      out := [];
      if root == myRank {
        for i := 0 to numProcesses
          invariant |out| == if root < i then i - 1 else i
          invariant forall k :: 0 <= k < |out| ==>
                      out[k].op == op && out[k].source == root && out[k].size == size &&
                      out[k].dest == if k < root then k else k + 1
        {
          if i != myRank {
            out := out + [Message(op, root, i, currentMpiCall.size, 0)];
          }
        }
        currentMpiCall := IDLE;
        resumed := true;
      } else {
        resumed := Synchronize();
      }
    }
  }
}
