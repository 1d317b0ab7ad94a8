/**
 The centralised barrier. Every slave announces with a DOWN message that it reached the barrier, the
 master marks the senders, and when every process is marked it clears the marks and sends UP to all.
 Neither message says which round it belongs to.
 */
module Barrier {
  datatype Mark = Up | Down

  /** All processes, the master's marks and the messages in flight. `entered` and `left` count, for
      every process, the barriers it has called and returned from: they are history only. */
  datatype System = System(marks: seq<Mark>, blocked: seq<bool>, downs: multiset<nat>, ups: multiset<nat>,
                           entered: seq<nat>, left: seq<nat>)

  datatype Event = Enter(rank: nat) | DeliverDown(source: nat) | DeliverUp(dest: nat)

  predicate AllDown(marks: seq<Mark>) {
    forall i :: 0 <= i < |marks| ==> marks[i] == Down
  }

  function Slaves(n: nat): (m: multiset<nat>)
    ensures forall i :: m[i] == if 1 <= i < n then 1 else 0
  {
    if n <= 1 then multiset{} else Slaves(n - 1) + multiset{n - 1}
  }

  function Repeat<T>(x: T, n: nat): seq<T> {
    seq(n, i => x)
  }

  function Init(n: nat): System {
    System(Repeat(Up, n), Repeat(false, n), multiset{}, multiset{}, Repeat(0, n), Repeat(0, n))
  }

  predicate Sized(s: System) {
    |s.marks| == |s.blocked| == |s.entered| == |s.left| > 0
  }

  predicate Enabled(s: System, e: Event) {
    match e
    case Enter(i) => i < |s.blocked| && !s.blocked[i]
    case DeliverDown(i) => i in s.downs && i < |s.blocked|
    case DeliverUp(i) => i in s.ups && i < |s.blocked|
  }

  /** The master lets everybody go once all are marked; it goes on itself, whatever it was doing. */
  function CheckBarriers(s: System): (s': System)
    requires Sized(s)
    ensures Sized(s') && |s'.marks| == |s.marks|
  {
    if AllDown(s.marks) then
      s.(marks := Repeat(Up, |s.marks|), ups := s.ups + Slaves(|s.marks|),
         blocked := s.blocked[0 := false], left := s.left[0 := s.left[0] + 1])
    else s
  }

  function Step(s: System, e: Event): (s': System)
    requires Sized(s)
    ensures Sized(s') && |s'.marks| == |s.marks|
  {
    if !Enabled(s, e) then s
    else match e
      case Enter(i) =>
        var s1 := s.(blocked := s.blocked[i := true], entered := s.entered[i := s.entered[i] + 1]);
        if i == 0 then CheckBarriers(s1.(marks := s1.marks[0 := Down]))
        else s1.(downs := s1.downs + multiset{i})
      case DeliverDown(i) =>
        CheckBarriers(s.(downs := s.downs - multiset{i}, marks := s.marks[i := Down]))
      case DeliverUp(i) =>
        s.(ups := s.ups - multiset{i}, blocked := s.blocked[i := false], left := s.left[i := s.left[i] + 1])
  }

  function Execute(n: nat, events: seq<Event>): (s: System)
    requires n > 0
    ensures Sized(s) && |s.marks| == n
  {
    if events == [] then Init(n)
    else Step(Execute(n, events[..|events| - 1]), events[|events| - 1])
  }

  // ---------------------------------------------------------------- invariant

  function Count(b: bool): nat { if b then 1 else 0 }

  ghost predicate SlaveInv(s: System, i: nat)
    requires Sized(s) && i < |s.marks|
  {
    && s.downs[i] + Count(s.marks[i] == Down) + s.ups[i] == Count(s.blocked[i])
    && s.entered[i] == s.left[i] + Count(s.blocked[i])
    && s.entered[i] == s.left[0] + Count(s.downs[i] == 1 || s.marks[i] == Down)
  }

  ghost predicate MasterInv(s: System)
    requires Sized(s)
  {
    && (s.marks[0] == Down <==> s.blocked[0])
    && s.entered[0] == s.left[0] + Count(s.blocked[0])
  }

  ghost predicate Inv(s: System) {
    && Sized(s)
    && MasterInv(s)
    && (forall i :: 1 <= i < |s.marks| ==> SlaveInv(s, i))
    && (forall i :: i in s.downs ==> 1 <= i < |s.marks|)
    && (forall i :: i in s.ups ==> 1 <= i < |s.marks|)
  }

  /** What holds just before the master looks at its marks, and afterwards. */
  lemma CheckKeeps(s: System)
    requires Inv(s)
    ensures Inv(CheckBarriers(s)) && !AllDown(CheckBarriers(s).marks)
  {
    var s' := CheckBarriers(s);
    if AllDown(s.marks) {
      assert s'.marks[0] == Up;
      forall i | 1 <= i < |s.marks| ensures SlaveInv(s', i) {
        assert SlaveInv(s, i);
      }
    }
  }

  /** An update that leaves slave j's entries alone keeps its invariant. */
  lemma SlaveUntouched(s: System, s': System, j: nat)
    requires Sized(s) && Sized(s') && |s'.marks| == |s.marks| && 1 <= j < |s.marks|
    requires SlaveInv(s, j)
    requires s'.downs[j] == s.downs[j] && s'.ups[j] == s.ups[j]
    requires s'.marks[j] == s.marks[j] && s'.blocked[j] == s.blocked[j]
    requires s'.entered[j] == s.entered[j] && s'.left[j] == s.left[j] && s'.left[0] == s.left[0]
    ensures SlaveInv(s', j)
  {}

  lemma EnterKeeps(s: System, i: nat)
    requires Inv(s) && !AllDown(s.marks) && Enabled(s, Enter(i))
    ensures Inv(Step(s, Enter(i))) && !AllDown(Step(s, Enter(i)).marks)
  {
    var s1 := s.(blocked := s.blocked[i := true], entered := s.entered[i := s.entered[i] + 1]);
    var s2 := if i == 0 then s1.(marks := s1.marks[0 := Down]) else s1.(downs := s1.downs + multiset{i});
    forall j | 1 <= j < |s.marks| ensures SlaveInv(s2, j) {
      assert SlaveInv(s, j);
      if j != i {
        SlaveUntouched(s, s2, j);
      }
    }
    if i == 0 {
      CheckKeeps(s2);
    }
  }

  lemma DeliverDownKeeps(s: System, i: nat)
    requires Inv(s) && !AllDown(s.marks) && Enabled(s, DeliverDown(i))
    ensures Inv(Step(s, DeliverDown(i))) && !AllDown(Step(s, DeliverDown(i)).marks)
  {
    var s2 := s.(downs := s.downs - multiset{i}, marks := s.marks[i := Down]);
    forall j | 1 <= j < |s.marks| ensures SlaveInv(s2, j) {
      assert SlaveInv(s, j);
      if j != i {
        SlaveUntouched(s, s2, j);
      }
    }
    CheckKeeps(s2);
  }

  lemma DeliverUpKeeps(s: System, i: nat)
    requires Inv(s) && !AllDown(s.marks) && Enabled(s, DeliverUp(i))
    ensures Inv(Step(s, DeliverUp(i))) && !AllDown(Step(s, DeliverUp(i)).marks)
  {
    var s2 := Step(s, DeliverUp(i));
    forall j | 1 <= j < |s.marks| ensures SlaveInv(s2, j) {
      assert SlaveInv(s, j);
      if j != i {
        SlaveUntouched(s, s2, j);
      }
    }
  }

  lemma StepKeeps(s: System, e: Event)
    requires Inv(s) && !AllDown(s.marks)
    ensures Inv(Step(s, e)) && !AllDown(Step(s, e).marks)
  {
    if Enabled(s, e) {
      match e
      case Enter(i) => EnterKeeps(s, i);
      case DeliverDown(i) => DeliverDownKeeps(s, i);
      case DeliverUp(i) => DeliverUpKeeps(s, i);
    }
  }

  lemma {:induction false} ReachableInv(n: nat, events: seq<Event>)
    requires n > 0
    ensures Inv(Execute(n, events)) && !AllDown(Execute(n, events).marks)
  {
    if events == [] {
      assert Init(n).marks[0] == Up;
      assert forall i :: 1 <= i < n ==> SlaveInv(Init(n), i);
    } else {
      ReachableInv(n, events[..|events| - 1]);
      StepKeeps(Execute(n, events[..|events| - 1]), events[|events| - 1]);
    }
  }

  // ---------------------------------------------------------------- guarantees

  /** No process leaves its k-th barrier before all have entered their k-th, and no two processes are
      more than one barrier apart, under every interleaving of calls and deliveries. */
  lemma BarrierIsSafe(n: nat, events: seq<Event>, i: nat, j: nat)
    requires i < n && j < n
    ensures var s := Execute(n, events);
            && s.left[i] <= s.entered[j]
            && s.entered[i] <= s.entered[j] + 1
            && s.left[i] <= s.left[j] + 1
            && (s.blocked[i] <==> s.entered[i] == s.left[i] + 1)
  {
    ReachableInv(n, events);
    var s := Execute(n, events);
    assert i > 0 ==> SlaveInv(s, i);
    assert j > 0 ==> SlaveInv(s, j);
  }

  /** A slave inside a barrier has exactly one of: a DOWN in flight, a mark at the master, an UP in
      flight. A slave outside has none. A mark may belong to a round the master has not called yet. */
  lemma SlaveHasOneToken(n: nat, events: seq<Event>, i: nat)
    requires 1 <= i < n
    ensures var s := Execute(n, events);
            && s.downs[i] + Count(s.marks[i] == Down) + s.ups[i] == Count(s.blocked[i])
            && (s.ups[i] == 1 ==> s.entered[i] == s.left[0])
            && (s.marks[i] == Down ==> s.entered[i] == s.left[0] + 1)
  {
    ReachableInv(n, events);
    assert SlaveInv(Execute(n, events), i);
  }

  lemma ReleaseStepFindsAllInside(s: System, e: Event, i: nat)
    requires Inv(s) && !AllDown(s.marks) && Enabled(s, e) && i < |s.marks|
    requires Step(s, e).left[0] != s.left[0]
    ensures s.blocked[i] || e == Enter(i)
  {
    var s1 := match e
      case Enter(k) =>
        s.(blocked := s.blocked[k := true], entered := s.entered[k := s.entered[k] + 1], marks := s.marks[0 := Down])
      case DeliverDown(k) => s.(downs := s.downs - multiset{k}, marks := s.marks[k := Down])
      case DeliverUp(k) => s;
    assert AllDown(s1.marks);
    assert s1.marks[i] == Down;
    if i > 0 {
      assert SlaveInv(s, i);
    }
  }

  /** Whenever the master goes past a barrier, everybody, the master included, is inside it. */
  lemma ReleaseFindsAllInside(n: nat, events: seq<Event>, e: Event, i: nat)
    requires i < n && Enabled(Execute(n, events), e)
    requires Step(Execute(n, events), e).left[0] != Execute(n, events).left[0]
    ensures Execute(n, events).blocked[i] || e == Enter(i)
  {
    ReachableInv(n, events);
    ReleaseStepFindsAllInside(Execute(n, events), e, i);
  }

  lemma IdleSlave(s: System, i: nat)
    requires Inv(s) && 1 <= i < |s.marks| && s.downs[i] == 0 && s.ups[i] == 0
    ensures s.left[i] == s.left[0]
    ensures s.entered[i] > s.left[0] ==> s.marks[i] == Down
  {
    assert SlaveInv(s, i);
  }

  /** If everybody has called the k-th barrier and the network is idle, everybody is past it. */
  lemma IdleNetworkMeansReleased(n: nat, events: seq<Event>, k: nat, i: nat)
    requires i < n
    requires Execute(n, events).downs == multiset{} && Execute(n, events).ups == multiset{}
    requires forall j :: 0 <= j < n ==> Execute(n, events).entered[j] >= k
    ensures Execute(n, events).left[i] >= k
  {
    ReachableInv(n, events);
    var s := Execute(n, events);
    if i > 0 {
      IdleSlave(s, i);
    }
    var up :| 0 <= up < n && s.marks[up] == Up;
    assert s.entered[up] >= k;
    if up > 0 {
      IdleSlave(s, up);
    }
  }

  /** The barrier cannot get stuck: a process may call it, or a message is on its way. */
  lemma BarrierNeverStuck(n: nat, events: seq<Event>)
    requires n > 0
    ensures exists e :: Enabled(Execute(n, events), e)
  {
    ReachableInv(n, events);
    var s := Execute(n, events);
    var j :| 0 <= j < n && s.marks[j] == Up;
    if !s.blocked[j] {
      assert Enabled(s, Enter(j));
    } else {
      assert SlaveInv(s, j);
      if s.downs[j] == 1 {
        assert Enabled(s, DeliverDown(j));
      } else {
        assert s.ups[j] == 1;
        assert Enabled(s, DeliverUp(j));
      }
    }
  }
}
