/** The allocator of module gates: freed positions are handed out again, oldest first. */
module Gates {
  import opened Arith
  import opened Wrappers

  datatype Error = BeyondTheEnd | AlreadyLinked | NotLinked | NoSuchGate

  /** The gate vector as linked flags, and the queue of freed positions. */
  datatype State = State(linked: seq<bool>, holes: seq<nat>)

  datatype Event = New | Free(index: nat)

  function Live(s: State): set<nat> {
    set i: nat | i < |s.linked| && s.linked[i]
  }

  /** Where the next gate goes. */
  function Next(s: State): nat {
    if s.linked != [] && s.holes != [] then s.holes[0] else |s.linked|
  }

  function Link(s: State, index: nat): Result<State, Error> {
    if |s.linked| < index then Err(BeyondTheEnd)
    else if |s.linked| == index then Ok(s.(linked := s.linked + [true]))
    else if s.linked[index] then Err(AlreadyLinked)
    else Ok(s.(linked := s.linked[index := true]))
  }

  function WithoutHole(s: State): State {
    if s.linked != [] && s.holes != [] then s.(holes := s.holes[1..]) else s
  }

  /** Freeing is for positions of the vector. */
  predicate InRange(s: State, e: Event) { e.Free? ==> e.index < |s.linked| }

  function Step(s: State, e: Event): Result<State, Error>
    requires InRange(s, e)
  {
    match e
    case New => Link(WithoutHole(s), Next(s))
    case Free(i) => if s.linked[i] then Ok(State(s.linked[i := false], s.holes + [i])) else Err(NotLinked)
  }

  /** `holes` lists exactly the positions that are not linked, each of them once. */
  ghost predicate HolesExact(s: State) {
    && (forall j, k :: 0 <= j < k < |s.holes| ==> s.holes[j] != s.holes[k])
    && (forall i: nat :: i in s.holes <==> i < |s.linked| && !s.linked[i])
  }

  // ---------------------------------------------------------------- runs

  /** The state after a run that frees only live gates; there is none if an operation fails. */
  function After(es: seq<Event>): Option<State> {
    if es == [] then Some(State([], []))
    else
      var (before, e) := (After(es[..|es| - 1]), es[|es| - 1]);
      if before.None? || (e.Free? && e.index !in Live(before.value)) then None
      else
        var r := Step(before.value, e);
        if r.Ok? then Some(r.value) else None
  }

  /** The largest number of gates that were live at the same time. */
  function Peak(es: seq<Event>): nat
    requires After(es).Some?
  {
    if es == [] then 0 else Max(Peak(es[..|es| - 1]), |Live(After(es).value)|)
  }

  /** A new gate is never a live one, is not refused, and is the oldest hole if there is one. */
  lemma NewIsFresh(s: State)
    requires HolesExact(s)
    ensures Step(s, New).Ok?
    ensures var s' := Step(s, New).value;
            && HolesExact(s') && Next(s) !in Live(s) && Live(s') == Live(s) + {Next(s)}
            && (s.holes != [] ==> s'.holes == s.holes[1..]) && (s.holes == [] ==> s'.holes == [])
            && if s.holes != [] then Next(s) == s.holes[0] && |s'.linked| == |s.linked|
               else Next(s) == |s.linked| && |s'.linked| == |s.linked| + 1
  {
    if s.holes != [] {
      var i := s.holes[0];
      assert i in s.holes;
      var s' := WithoutHole(s).(linked := s.linked[i := true]);
      assert s.holes == [i] + s'.holes;
      forall k: nat ensures k in s'.holes <==> k < |s'.linked| && !s'.linked[k] {
        assert k in s.holes <==> k == i || k in s'.holes;
      }
    }
  }

  lemma FreeKeeps(s: State, i: nat)
    requires HolesExact(s) && i in Live(s)
    ensures Step(s, Free(i)).Ok?
    ensures var s' := Step(s, Free(i)).value;
            && HolesExact(s') && Live(s') == Live(s) - {i} && |s'.linked| == |s.linked| && s'.holes == s.holes + [i]
  {}

  /** A position is linked if it is the next one or a free one, and then it is live and nothing else
      changes. */
  lemma LinkIsExact(s: State, i: nat)
    ensures Link(s, i).Ok? <==> i <= |s.linked| && i !in Live(s)
    ensures Link(s, i).Ok? ==> Live(Link(s, i).value) == Live(s) + {i} && Link(s, i).value.holes == s.holes
    ensures Link(s, i).Ok? ==> |Link(s, i).value.linked| == if i == |s.linked| then i + 1 else |s.linked|
    ensures Link(s, i).Err? ==> Link(s, i).error == if i in Live(s) then AlreadyLinked else BeyondTheEnd
    ensures i < |s.linked| && i !in Live(s) ==> Step(s, Free(i)) == Err(NotLinked)
  {}

  /** Holes and live gates together are the vector. */
  lemma SizeIsLivePlusHoles(s: State)
    requires HolesExact(s)
    ensures |Live(s)| + |s.holes| == |s.linked|
  {
    var free := set i: nat | i in s.holes;
    CountHoles(s.holes);
    assert Range(|s.linked|) == Live(s) + free;
    assert Live(s) * free == {};
  }

  lemma {:induction false} CountHoles(h: seq<nat>)
    requires forall j, k :: 0 <= j < k < |h| ==> h[j] != h[k]
    ensures |(set i: nat | i in h)| == |h|
  {
    if h != [] {
      var front := h[..|h| - 1];
      CountHoles(front);
      assert h == front + [h[|h| - 1]];
      assert (set i: nat | i in h) == (set i: nat | i in front) + {h[|h| - 1]};
    }
  }

  function Range(n: nat): (r: set<nat>)
    ensures |r| == n && forall i: nat :: i in r <==> i < n
  {
    if n == 0 then {} else Range(n - 1) + {n - 1}
  }

  /** Over any run the holes are exact and the vector is as long as the peak. */
  lemma {:induction false} VectorIsPeak(es: seq<Event>)
    requires After(es).Some?
    ensures var s := After(es).value; HolesExact(s) && |s.linked| == Peak(es)
  {
    if es != [] {
      var (before, e) := (es[..|es| - 1], es[|es| - 1]);
      var (r, s) := (After(before).value, After(es).value);
      VectorIsPeak(before);
      if e == New {
        NewIsFresh(r);
      } else {
        FreeKeeps(r, e.index);
      }
      SizeIsLivePlusHoles(s);
      SizeIsLivePlusHoles(r);
      LiveIsBelowPeak(before);
    }
  }

  lemma LiveIsBelowPeak(es: seq<Event>)
    requires After(es).Some?
    ensures |Live(After(es).value)| <= Peak(es)
  {
    if es == [] {
      assert Live(State([], [])) == {};
    }
  }

  /** No run gets stuck: allocating always works, and so does freeing a live gate. */
  lemma OnlyBadFreesFail(es: seq<Event>, e: Event)
    requires After(es).Some?
    ensures After(es + [e]).None? <==> e.Free? && e.index !in Live(After(es).value)
  {
    assert (es + [e])[..|es|] == es;
    VectorIsPeak(es);
    if e == New {
      NewIsFresh(After(es).value);
    }
  }

  // ---------------------------------------------------------------- first freed, first used again

  /** The time at which gate g was last freed in the run, or -1. */
  function FreedAt(es: seq<Event>, g: nat): int {
    if es == [] then -1
    else if es[|es| - 1] == Free(g) then |es| - 1
    else FreedAt(es[..|es| - 1], g)
  }

  lemma {:induction false} FreedBefore(es: seq<Event>, g: nat)
    ensures -1 <= FreedAt(es, g) < |es|
  {
    if es != [] {
      FreedBefore(es[..|es| - 1], g);
    }
  }

  /** The holes are in the order in which they were freed. */
  ghost predicate InOrderOfFreeing(es: seq<Event>, holes: seq<nat>) {
    && (forall i :: 0 <= i < |holes| ==> FreedAt(es, holes[i]) >= 0)
    && (forall i, j :: 0 <= i < j < |holes| ==> FreedAt(es, holes[i]) < FreedAt(es, holes[j]))
  }

  lemma {:induction false} HolesAreInOrder(es: seq<Event>)
    requires After(es).Some?
    ensures InOrderOfFreeing(es, After(es).value.holes)
  {
    if es != [] {
      var (before, e) := (es[..|es| - 1], es[|es| - 1]);
      HolesAreInOrder(before);
      VectorIsPeak(before);
      var s := After(before).value;
      if e == New {
        NewIsFresh(s);
        OrderAfterNew(es, s.holes);
      } else {
        FreeKeeps(s, e.index);
        OrderAfterFree(es, s.holes, e.index);
      }
    }
  }

  lemma OrderAfterNew(es: seq<Event>, holes: seq<nat>)
    requires es != [] && es[|es| - 1] == New && InOrderOfFreeing(es[..|es| - 1], holes)
    ensures InOrderOfFreeing(es, if holes == [] then [] else holes[1..])
  {
    forall g: nat ensures FreedAt(es, g) == FreedAt(es[..|es| - 1], g) {}
  }

  lemma OrderAfterFree(es: seq<Event>, holes: seq<nat>, i: nat)
    requires es != [] && es[|es| - 1] == Free(i) && InOrderOfFreeing(es[..|es| - 1], holes) && i !in holes
    ensures InOrderOfFreeing(es, holes + [i])
  {
    var after := holes + [i];
    forall k | 0 <= k < |holes| ensures FreedAt(es, after[k]) == FreedAt(es[..|es| - 1], holes[k]) < |es| - 1 {
      assert holes[k] in holes;
      FreedBefore(es[..|es| - 1], holes[k]);
    }
  }

  /** A gate that has been used is live, or it has been freed and is a hole. */
  lemma {:induction false} UsedGates(es: seq<Event>, g: nat)
    requires After(es).Some?
    ensures FreedAt(es, g) >= 0 && g !in Live(After(es).value) ==> g in After(es).value.holes
  {
    VectorIsPeak(es);
    if es != [] {
      var before := es[..|es| - 1];
      VectorIsPeak(before);
      UsedGates(before, g);
      if es[|es| - 1] == New {
        NewIsFresh(After(before).value);
      }
    }
  }

  /** A gate that is used again is the one that has been free longest: it was freed before every other
      gate that is free now. Only when no gate is free is one used that was never freed. */
  lemma LongestFreeIsNext(es: seq<Event>, i: nat, g: nat)
    requires After(es).Some? && After(es + [New]).Some?
    requires i in Live(After(es + [New]).value) && i !in Live(After(es).value)
    requires FreedAt(es, g) >= 0 && g !in Live(After(es).value)
    ensures 0 <= FreedAt(es, i) <= FreedAt(es, g)
    ensures g != i ==> FreedAt(es, i) < FreedAt(es, g)
  {
    var s := After(es).value;
    assert (es + [New])[..|es|] == es;
    VectorIsPeak(es);
    HolesAreInOrder(es);
    UsedGates(es, g);
    NewIsFresh(s);
    assert i == s.holes[0];
    var k :| 0 <= k < |s.holes| && s.holes[k] == g;
  }

  // ---------------------------------------------------------------- the allocator object

  class GateManager {
    /** Each entry stands for the gate of its position in the module's gate vector. */
    var gates: seq<bool>
    var holes: seq<nat>
    /** The size the module's gate vector has been set to. */
    var gateSize: nat

    ghost function View(): State
      reads this
    {
      State(gates, holes)
    }

    ghost predicate Valid()
      reads this
    {
      HolesExact(View()) && gateSize == |gates|
    }

    constructor ()
      ensures Valid() && View() == State([], [])
    {
      gates := [];
      holes := [];
      gateSize := 0;
    }

    /** Besides the errors of the vector there is that of a gate which the module does not have. */
    method LinkGate(index: nat) returns (r: Result<(), Error>)
      modifies this`gates
      ensures r.Ok? ==> index < gateSize && Link(old(View()), index) == Ok(View())
      ensures r.Err? ==> View() == old(View())
                         && r.error == if Link(View(), index).Err? then Link(View(), index).error else NoSuchGate
      ensures r == Err(NoSuchGate) ==> gateSize <= index
    {
      if |gates| < index {
        r := Err(BeyondTheEnd);
      } else if |gates| == index {
        if index >= gateSize {
          return Err(NoSuchGate);
        }
        gates := gates + [true];
        r := Ok(());
      } else if gates[index] {
        r := Err(AlreadyLinked);
      } else {
        if index >= gateSize {
          return Err(NoSuchGate);
        }
        gates := gates[index := true];
        r := Ok(());
      }
    }

    /** The errors of LinkGate do not occur here. */
    method NewGate() returns (gatePosition: nat)
      requires Valid()
      modifies this
      ensures Valid() && gatePosition == Next(old(View())) && Step(old(View()), New) == Ok(View())
      ensures old(holes) != [] ==> [gatePosition] + holes == old(holes) && |gates| == |old(gates)|
      ensures old(holes) == [] ==> gatePosition == |old(gates)| && holes == [] && |gates| == |old(gates)| + 1
    {
      NewIsFresh(View());
      if |gates| == 0 {
        gateSize := 1;
        gatePosition := 0;
      } else {
        if |holes| > 0 {
          gatePosition := holes[0];
          holes := holes[1..];
          assert gatePosition in old(holes);
        } else {
          gatePosition := |gates|;
          gateSize := |gates| + 1;
        }
      }
      var linked := LinkGate(gatePosition);
      assert linked.Ok?;
    }

    method FreeGate(index: nat) returns (r: Result<nat, Error>)
      requires Valid() && index < |gates|
      modifies this
      ensures Valid()
      ensures if r.Ok? then r.value == index && Step(old(View()), Free(index)) == Ok(View())
              else Step(old(View()), Free(index)) == Err(r.error) && View() == old(View())
      ensures r.Ok? ==> holes == old(holes) + [index] && gates == old(gates)[index := false]
    {
      if !gates[index] {
        r := Err(NotLinked);
      } else {
        FreeKeeps(View(), index);
        gates := gates[index := false];
        holes := holes + [index];
        r := Ok(index);
      }
    }
  }
}
