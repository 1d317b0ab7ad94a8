/** Bookkeeping of the sub-requests of many parents: which have arrived, and when a parent is complete. */
module Arrivals {
  import opened Arith
  import opened Wrappers

  /** A sub-request message. `currentRequest` is the last index of its trace. */
  datatype Message = Message(id: nat, currentRequest: int, isResponse: bool)

  /** One row of the table: a parent, a slot for each of its sub-requests, and the counter. */
  datatype Request = Request(parent: nat, slots: seq<Option<Message>>, arrived: nat)

  datatype Error = RequestNotFound | IndexOutOfBounds

  datatype Event =
    | Add(parent: nat, n: nat)
    | Link(parent: nat, sub: Message, index: int)
    | Pop(parent: nat, index: int)
    | Arrive(parent: nat, sub: Message)
    | Remove(parent: nat)

  /** The position of the first row of a parent, or the length of the table. */
  function Find(t: seq<Request>, p: nat): (i: nat)
    ensures i <= |t| && (i < |t| ==> t[i].parent == p)
    ensures forall j :: 0 <= j < i ==> t[j].parent != p
  {
    if t == [] || t[0].parent == p then 0 else 1 + Find(t[1..], p)
  }

  function Index(e: Event): int
    requires e.Link? || e.Pop? || e.Arrive?
  {
    if e.Arrive? then e.sub.currentRequest else e.index
  }

  /** A sub-request arrives for slot i: it empties a slot that was linked before the request was sent,
      and fills a slot that was left empty. */
  function Arrived(r: Request, sub: Message, i: int): Result<Request, Error> {
    if !(0 <= i < |r.slots|) then Err(IndexOutOfBounds)
    else Ok(r.(slots := r.slots[i := if r.slots[i].None? then Some(sub) else None], arrived := r.arrived + 1))
  }

  /** What an event does to the row it is about. */
  function OnRow(r: Request, e: Event): Result<Request, Error>
    requires e.Link? || e.Pop? || e.Arrive?
  {
    var i := Index(e);
    if e.Arrive? then Arrived(r, e.sub, i)
    else if !(0 <= i < |r.slots|) then Err(IndexOutOfBounds)
    else if e.Link? then Ok(r.(slots := r.slots[i := Some(e.sub)]))
    else Ok(r.(slots := r.slots[i := None]))
  }

  function Empty(parent: nat, n: nat): Request {
    Request(parent, seq(n, i => None), 0)
  }

  function Step(t: seq<Request>, e: Event): Result<seq<Request>, Error> {
    if e.Add? then Ok(t + [Empty(e.parent, e.n)])
    else
      var i := Find(t, e.parent);
      if i == |t| then (if e.Pop? then Ok(t) else Err(RequestNotFound))
      else if e.Remove? then Ok(t[..i] + t[i + 1..])
      else
        var r := OnRow(t[i], e);
        if r.Ok? then Ok(t[i := r.value]) else Err(r.error)
  }

  function Execute(t: seq<Request>, es: seq<Event>): Result<seq<Request>, Error> {
    if es == [] then Ok(t)
    else
      var before := Execute(t, es[..|es| - 1]);
      if before.Ok? then Step(before.value, es[|es| - 1]) else before
  }

  lemma ExecuteNext(t: seq<Request>, es: seq<Event>, n: nat)
    requires n < |es| && Execute(t, es[..n]).Ok?
    ensures Execute(t, es[..n + 1]) == Step(Execute(t, es[..n]).value, es[n])
  {
    assert es[..n + 1][..n] == es[..n];
  }

  /** A run that fails stays failed. */
  lemma {:induction false} FailureStays(t: seq<Request>, es: seq<Event>, n: nat)
    requires n <= |es| && Execute(t, es[..n]).Err?
    ensures Execute(t, es) == Execute(t, es[..n])
  {
    if n == |es| {
      assert es[..n] == es;
    } else {
      assert es[..|es| - 1][..n] == es[..n];
      FailureStays(t, es[..|es| - 1], n);
    }
  }

  // ---------------------------------------------------------------- parents do not disturb each other

  /** The rows of one parent. */
  function Rows(t: seq<Request>, p: nat): seq<Request> {
    if t == [] then [] else (if t[0].parent == p then [t[0]] else []) + Rows(t[1..], p)
  }

  /** The events of one parent. */
  function Only(p: nat, es: seq<Event>): seq<Event> {
    if es == [] then []
    else Only(p, es[..|es| - 1]) + (if es[|es| - 1].parent == p then [es[|es| - 1]] else [])
  }

  lemma {:induction false} RowsConcat(a: seq<Request>, b: seq<Request>, p: nat)
    ensures Rows(a + b, p) == Rows(a, p) + Rows(b, p)
  {
    if a == [] {
      assert a + b == b;
    } else {
      assert (a + b)[1..] == a[1..] + b && (a + b)[0] == a[0];
      RowsConcat(a[1..], b, p);
      Regroup(if a[0].parent == p then [a[0]] else [], Rows(a[1..], p), Rows(b, p));
    }
  }

  lemma Regroup(a: seq<Request>, b: seq<Request>, c: seq<Request>)
    ensures a + (b + c) == a + b + c
  {}

  lemma {:induction false} NoRows(t: seq<Request>, p: nat)
    requires forall j :: 0 <= j < |t| ==> t[j].parent != p
    ensures Rows(t, p) == []
  {
    if t != [] {
      NoRows(t[1..], p);
    }
  }

  lemma RowsAround(t: seq<Request>, i: nat, mid: seq<Request>, p: nat)
    requires i < |t|
    ensures Rows(t[..i] + mid + t[i + 1..], p) == Rows(t[..i], p) + Rows(mid, p) + Rows(t[i + 1..], p)
  {
    RowsConcat(t[..i] + mid, t[i + 1..], p);
    RowsConcat(t[..i], mid, p);
  }

  /** The first row of a parent is the first of its own rows. */
  lemma {:induction false} FirstRow(t: seq<Request>, p: nat)
    ensures var i := Find(t, p); Rows(t, p) == if i < |t| then [t[i]] + Rows(t[i + 1..], p) else []
  {
    if t != [] && t[0].parent != p {
      FirstRow(t[1..], p);
      if Find(t, p) < |t| {
        assert t[1..][Find(t, p)..] == t[Find(t, p) + 1..];
      }
    }
  }

  /** A row at the head of the table is the one that its parent's events are about. */
  lemma StepAtHead(row: Request, rest: seq<Request>, e: Event)
    requires row.parent == e.parent && !e.Add?
    ensures e.Remove? ==> Step([row] + rest, e) == Ok(rest)
    ensures !e.Remove? && OnRow(row, e).Ok? ==> Step([row] + rest, e) == Ok([OnRow(row, e).value] + rest)
    ensures !e.Remove? && OnRow(row, e).Err? ==> Step([row] + rest, e).Err?
  {
    var t := [row] + rest;
    assert t[0] == row && Find(t, e.parent) == 0;
    if e.Remove? {
      assert t[..0] + t[1..] == rest;
    } else if OnRow(row, e).Ok? {
      assert t[0 := OnRow(row, e).value] == [OnRow(row, e).value] + rest;
    }
  }

  /** Row i is the first of parent p. */
  ghost predicate IsFirst(t: seq<Request>, p: nat, i: nat) {
    i < |t| && t[i].parent == p && forall j :: 0 <= j < i ==> t[j].parent != p
  }

  /** What an event does to the table, given the first row of its parent. */
  ghost predicate IsStepAt(t: seq<Request>, e: Event, i: nat, r: Result<seq<Request>, Error>)
    requires i < |t| && !e.Add?
  {
    if e.Remove? then r == Ok(t[..i] + t[i + 1..])
    else if OnRow(t[i], e).Ok? then r == Ok(t[i := OnRow(t[i], e).value])
    else r.Err?
  }

  lemma StepAtRow(t: seq<Request>, e: Event, i: nat)
    requires i == Find(t, e.parent) < |t| && !e.Add?
    ensures IsFirst(t, e.parent, i) && IsStepAt(t, e, i, Step(t, e))
  {}

  lemma CutAt(t: seq<Request>, i: nat)
    requires i < |t|
    ensures t == t[..i] + [t[i]] + t[i + 1..]
  {}

  lemma RowRemoved(t: seq<Request>, p: nat, q: nat, i: nat)
    requires IsFirst(t, q, i)
    ensures Rows(t[..i] + t[i + 1..], p) == if p == q then Rows(t[i + 1..], p) else Rows(t, p)
  {
    CutAt(t, i);
    NoRows(t[..i], q);
    RowsAround(t, i, [t[i]], p);
    RowsConcat(t[..i], t[i + 1..], p);
  }

  lemma RowUpdated(t: seq<Request>, p: nat, row: Request, i: nat)
    requires IsFirst(t, row.parent, i)
    ensures Rows(t[i := row], p) == if p == row.parent then [row] + Rows(t[i + 1..], p) else Rows(t, p)
  {
    CutAt(t, i);
    CutAt(t[i := row], i);
    NoRows(t[..i], row.parent);
    RowsAround(t, i, [t[i]], p);
    RowsAround(t, i, [row], p);
  }

  lemma AddIsLocal(t: seq<Request>, e: Event, p: nat)
    requires e.Add?
    ensures Rows(Step(t, e).value, p) == if e.parent == p then Step(Rows(t, p), e).value else Rows(t, p)
  {
    RowsConcat(t, [Empty(e.parent, e.n)], p);
  }

  /** The table is the interleaving of one table per parent: an event leaves the tables of the other
      parents as they are... */
  lemma OthersStay(t: seq<Request>, e: Event, p: nat)
    requires e.parent != p && Step(t, e).Ok?
    ensures Rows(Step(t, e).value, p) == Rows(t, p)
  {
    var i := Find(t, e.parent);
    if e.Add? {
      AddIsLocal(t, e, p);
    } else if i < |t| {
      StepAtRow(t, e, i);
      if e.Remove? {
        RowRemoved(t, p, e.parent, i);
      } else {
        RowUpdated(t, p, OnRow(t[i], e).value, i);
      }
    }
  }

  /** ... and works on the table of its own parent as it does on the whole. */
  lemma OwnStep(t: seq<Request>, e: Event)
    ensures Step(t, e).Ok? <==> Step(Rows(t, e.parent), e).Ok?
    ensures Step(t, e).Ok? ==> Step(Rows(t, e.parent), e).value == Rows(Step(t, e).value, e.parent)
  {
    if e.Add? {
      AddIsLocal(t, e, e.parent);
    } else if Find(t, e.parent) < |t| {
      FirstRow(t, e.parent);
      OwnRowStep(t, e, Find(t, e.parent));
    } else {
      NoOwnRow(t, e);
    }
  }

  lemma NoOwnRow(t: seq<Request>, e: Event)
    requires !e.Add? && Find(t, e.parent) == |t|
    ensures Rows(t, e.parent) == [] && Step(t, e) == if e.Pop? then Ok(t) else Err(RequestNotFound)
  {
    FirstRow(t, e.parent);
  }

  /** The outcome for the table and that for the rows of p alone. */
  ghost predicate Agree(whole: Result<seq<Request>, Error>, own: Result<seq<Request>, Error>, p: nat) {
    (whole.Ok? <==> own.Ok?) && (whole.Ok? ==> own.value == Rows(whole.value, p))
  }

  lemma OwnRowStep(t: seq<Request>, e: Event, i: nat)
    requires !e.Add? && i == Find(t, e.parent) < |t|
    ensures Agree(Step(t, e), Step([t[i]] + Rows(t[i + 1..], e.parent), e), e.parent)
  {
    StepAtRow(t, e, i);
    SameStep(t, e, i, Step(t, e));
  }

  lemma SameStep(t: seq<Request>, e: Event, i: nat, whole: Result<seq<Request>, Error>)
    requires !e.Add? && IsFirst(t, e.parent, i) && IsStepAt(t, e, i, whole)
    ensures Agree(whole, Step([t[i]] + Rows(t[i + 1..], e.parent), e), e.parent)
  {
    StepAtHead(t[i], Rows(t[i + 1..], e.parent), e);
    if e.Remove? {
      RowRemoved(t, e.parent, e.parent, i);
    } else if OnRow(t[i], e).Ok? {
      RowUpdated(t, e.parent, OnRow(t[i], e).value, i);
    }
  }

  lemma OnlyLast(p: nat, es: seq<Event>)
    requires es != []
    ensures var (own, e) := (Only(p, es), es[|es| - 1]);
            if e.parent == p
            then own != [] && own[|own| - 1] == e && own[..|own| - 1] == Only(p, es[..|es| - 1])
            else own == Only(p, es[..|es| - 1])
  {}

  /** Over any run, what happened to a parent follows from the events of that parent alone. */
  lemma {:induction false} ParentsAreIndependent(t: seq<Request>, es: seq<Event>, p: nat)
    requires Execute(t, es).Ok?
    ensures Execute(Rows(t, p), Only(p, es)) == Ok(Rows(Execute(t, es).value, p))
  {
    if es != [] {
      var (before, e) := (es[..|es| - 1], es[|es| - 1]);
      ParentsAreIndependent(t, before, p);
      var mid := Execute(t, before).value;
      OnlyLast(p, es);
      if e.parent == p {
        OwnStep(mid, e);
      } else {
        OthersStay(mid, e, p);
      }
    }
  }

  /** A run fails exactly if it fails for some parent by itself. */
  lemma {:induction false} FailuresAreLocal(t: seq<Request>, es: seq<Event>)
    ensures Execute(t, es).Err? <==> exists p :: Execute(Rows(t, p), Only(p, es)).Err?
  {
    if Execute(t, es).Ok? {
      forall p ensures Execute(Rows(t, p), Only(p, es)).Ok? {
        ParentsAreIndependent(t, es, p);
      }
    } else {
      var _ := CulpritOf(t, es);
    }
  }

  lemma {:induction false} CulpritOf(t: seq<Request>, es: seq<Event>) returns (p: nat)
    requires Execute(t, es).Err?
    ensures Execute(Rows(t, p), Only(p, es)).Err?
  {
    var (before, e) := (es[..|es| - 1], es[|es| - 1]);
    if Execute(t, before).Err? {
      p := CulpritOf(t, before);
    } else {
      p := e.parent;
      ParentsAreIndependent(t, before, p);
      OwnStep(Execute(t, before).value, e);
    }
    OnlyLast(p, es);
  }

  // ---------------------------------------------------------------- one parent over a run

  ghost predicate Holds(t: seq<Request>, p: nat, r: Request) {
    Find(t, p) < |t| && t[Find(t, p)] == r
  }

  /** The indices that have arrived for a parent, in order. */
  function Indices(es: seq<Event>, p: nat): seq<int> {
    if es == [] then []
    else
      var e := es[|es| - 1];
      Indices(es[..|es| - 1], p) + (if e.Arrive? && e.parent == p then [e.sub.currentRequest] else [])
  }

  lemma {:induction false} FindIsFirst(t: seq<Request>, p: nat, i: nat)
    requires i < |t| && t[i].parent == p && forall j :: 0 <= j < i ==> t[j].parent != p
    ensures Find(t, p) == i
  {
    if i > 0 {
      FindIsFirst(t[1..], p, i - 1);
    }
  }

  lemma StepOnHeld(t: seq<Request>, e: Event, p: nat, r: Request)
    requires Holds(t, p, r) && Step(t, e).Ok? && (e.Remove? ==> e.parent != p)
    ensures e.parent == p && !e.Add? ==> OnRow(r, e).Ok? && Holds(Step(t, e).value, p, OnRow(r, e).value)
    ensures e.parent != p || e.Add? ==> Holds(Step(t, e).value, p, r)
  {
    var (i, k) := (Find(t, p), Find(t, e.parent));
    var after := Step(t, e).value;
    if e.Remove? {
      FindIsFirst(after, p, if k < i then i - 1 else i);
    } else {
      FindIsFirst(after, p, i);
    }
  }

  ghost predicate InRange(indices: seq<int>, n: nat) {
    forall k :: 0 <= k < |indices| ==> 0 <= indices[k] < n
  }

  ghost predicate KeepsParent(es: seq<Event>, p: nat) {
    forall k :: 0 <= k < |es| ==> es[k].Remove? ==> es[k].parent != p
  }

  /** The counter is the number of arrivals, whatever is linked and popped meanwhile and whatever
      happens to other parents; every arrival was in range. */
  lemma {:induction false} CounterCounts(t: seq<Request>, es: seq<Event>, p: nat, r: Request) returns (r': Request)
    requires Holds(t, p, r) && Execute(t, es).Ok? && KeepsParent(es, p)
    ensures Holds(Execute(t, es).value, p, r')
    ensures r'.arrived == r.arrived + |Indices(es, p)| && |r'.slots| == |r.slots|
    ensures InRange(Indices(es, p), |r.slots|)
  {
    if es == [] {
      r' := r;
    } else {
      var (before, e) := (es[..|es| - 1], es[|es| - 1]);
      var mid := CounterCounts(t, before, p, r);
      StepOnHeld(Execute(t, before).value, e, p, mid);
      r' := if e.parent == p && !e.Add? then OnRow(mid, e).value else mid;
    }
  }

  // ---------------------------------------------------------------- when a parent is complete

  /** What the table answers when asked whether all sub-requests of a parent have arrived. */
  function AllArrived(t: seq<Request>, p: nat): Result<bool, Error> {
    var i := Find(t, p);
    if i == |t| then Err(RequestNotFound) else Ok(t[i].arrived == |t[i].slots|)
  }

  ghost predicate Covers(indices: seq<int>, n: nat) {
    forall j :: 0 <= j < n ==> j in indices
  }

  ghost predicate NoDuplicates(indices: seq<int>) {
    forall j, k :: 0 <= j < k < |indices| ==> indices[j] != indices[k]
  }

  function Range(n: nat): (r: set<int>)
    ensures |r| == n && forall j :: j in r <==> 0 <= j < n
  {
    if n == 0 then {} else Range(n - 1) + {n - 1}
  }

  function Elements(s: seq<int>): set<int> {
    set x | x in s
  }

  lemma {:induction false} ElementCount(s: seq<int>)
    ensures |Elements(s)| <= |s|
    ensures |Elements(s)| == |s| <==> NoDuplicates(s)
  {
    if s != [] {
      var (front, last) := (s[..|s| - 1], s[|s| - 1]);
      ElementCount(front);
      assert s == front + [last];
      assert Elements(s) == Elements(front) + {last};
      if last in front {
        var j :| 0 <= j < |front| && front[j] == last;
        assert s[j] == s[|s| - 1];
        assert Elements(s) == Elements(front);
      } else {
        assert NoDuplicates(s) <==> NoDuplicates(front);
      }
    }
  }

  /** n arrivals in range cover all n indices exactly if none came twice; fewer cannot. */
  lemma CoverByCounting(a: seq<int>, n: nat)
    requires InRange(a, n) && |a| <= n
    ensures Covers(a, n) <==> |a| == n && NoDuplicates(a)
  {
    ElementCount(a);
    assert Elements(a) <= Range(n);
    if Covers(a, n) {
      assert forall j :: j in Range(n) ==> j in a;
      assert Elements(a) == Range(n);
    } else if |a| == n && NoDuplicates(a) {
      SubsetBySize(Elements(a), Range(n));
      forall j | 0 <= j < n ensures j in a {
        assert j in Range(n);
      }
    }
  }

  /** The table's answer is the truth: all indices have arrived, or not all have. */
  ghost predicate AnswersRight(t: seq<Request>, es: seq<Event>, p: nat, n: nat) {
    Execute(t, es).Ok? && AllArrived(Execute(t, es).value, p) == Ok(Covers(Indices(es, p), n))
  }

  /** At most one arrival for each index, or not enough arrivals to matter. */
  ghost predicate Fair(a: seq<int>, n: nat) {
    |a| < n || (|a| == n && NoDuplicates(a))
  }

  lemma OneMoreArrival(a: seq<int>, j: int, n: nat)
    requires InRange(a + [j], n)
    ensures Fair(a, n) && (Covers(a + [j], n) <==> |a + [j]| == n) <==> Fair(a + [j], n)
  {
    var b := a + [j];
    assert InRange(a, n) by {
      assert forall k :: 0 <= k < |a| ==> a[k] == b[k];
    }
    if |b| <= n {
      CoverByCounting(b, n);
    } else if Fair(a, n) {
      CoverByCounting(a, n);
      assert forall i :: 0 <= i < n ==> i in a && i in b;
    }
  }

  ghost predicate AlwaysRight(t: seq<Request>, es: seq<Event>, p: nat, n: nat) {
    forall m :: 0 <= m <= |es| ==> AnswersRight(t, es[..m], p, n)
  }

  lemma AlwaysRightStep(t: seq<Request>, es: seq<Event>, p: nat, n: nat)
    requires es != []
    ensures AlwaysRight(t, es, p, n) <==> AlwaysRight(t, es[..|es| - 1], p, n) && AnswersRight(t, es, p, n)
  {
    var before := es[..|es| - 1];
    assert es[..|es|] == es;
    assert forall m :: 0 <= m <= |before| ==> es[..m] == before[..m];
    if AlwaysRight(t, before, p, n) && AnswersRight(t, es, p, n) {
      forall m | 0 <= m <= |es| ensures AnswersRight(t, es[..m], p, n) {
        if m < |es| {
          assert AnswersRight(t, before[..m], p, n);
        }
      }
    }
    if AlwaysRight(t, es, p, n) {
      assert AnswersRight(t, es[..|es|], p, n);
      forall m | 0 <= m <= |before| ensures AnswersRight(t, before[..m], p, n) {
        assert AnswersRight(t, es[..m], p, n);
      }
    }
  }

  /** The exact condition, over any interleaving with other parents and in both modes: the table says
      "all arrived" when and only when all have, at every moment of the run, if and only if no index
      arrives twice before the parent is complete and none arrives afterwards. */
  lemma {:induction false} CompletionIsExact(t: seq<Request>, es: seq<Event>, p: nat, r: Request)
    requires Holds(t, p, r) && r.arrived == 0 && Execute(t, es).Ok? && KeepsParent(es, p)
    ensures AlwaysRight(t, es, p, |r.slots|) <==> Fair(Indices(es, p), |r.slots|)
  {
    var n := |r.slots|;
    var now := CounterCounts(t, es, p, r);
    if es == [] {
      assert es[..0] == es;
      assert n > 0 ==> 0 !in Indices(es, p);
    } else {
      var (before, e) := (es[..|es| - 1], es[|es| - 1]);
      CompletionIsExact(t, before, p, r);
      AlwaysRightStep(t, es, p, n);
      if e.Arrive? && e.parent == p {
        OneMoreArrival(Indices(before, p), e.sub.currentRequest, n);
      } else {
        assert Indices(es, p) == Indices(before, p);
        var was := CounterCounts(t, before, p, r);
        assert AnswersRight(t, es, p, n) <==> AnswersRight(t, before, p, n);
        assert before[..|before|] == before;
      }
    }
  }

  /** A parent of two whose first sub-request arrives twice is taken for complete. */
  lemma DuplicateCompletes(m: Message)
    requires m.currentRequest == 0
    ensures var es := [Arrive(7, m), Arrive(7, m)];
            && Execute([Empty(7, 2)], es).Ok?
            && AllArrived(Execute([Empty(7, 2)], es).value, 7) == Ok(true)
            && !Covers(Indices(es, 7), 2)
  {
    var (t, e) := ([Empty(7, 2)], Arrive(7, m));
    var es := [e, e];
    assert es[..1] == [e] && es[..1][..0] == [];
    assert Execute(t, [e]) == Step(t, e) && Indices([e], 7) == [0];
    assert Indices(es, 7) == [0, 0];
    var r1 := OnRow(t[0], e).value;
    assert Step(t, e).value == [r1];
    assert Step([r1], e).value == [OnRow(r1, e).value];
    assert 1 !in [0, 0];
  }

  // ---------------------------------------------------------------- the slots

  function Count(s: seq<int>, j: int): nat {
    if s == [] then 0 else Count(s[..|s| - 1], j) + (if s[|s| - 1] == j then 1 else 0)
  }

  predicate Even(n: nat) { n % 2 == 0 }

  lemma CountNext(s: seq<int>, i: int, j: int)
    ensures Even(Count(s + [i], j)) == (Even(Count(s, j)) == (i != j))
  {
    assert (s + [i])[..|s + [i]| - 1] == s;
  }

  ghost predicate OnlyArrives(es: seq<Event>, p: nat) {
    forall k :: 0 <= k < |es| ==> es[k].parent == p ==> es[k].Arrive? || es[k].Add?
  }

  lemma RowToggles(r: Request, e: Event, j: nat)
    requires e.Arrive? && OnRow(r, e).Ok? && j < |r.slots|
    ensures OnRow(r, e).value.slots[j].None? == (r.slots[j].None? == (Index(e) != j))
  {}

  lemma ToggleOnce(was: seq<int>, r: Request, e: Event, j: nat, start: bool)
    requires e.Arrive? && OnRow(r, e).Ok? && j < |r.slots|
    requires r.slots[j].None? == (start == Even(Count(was, j)))
    ensures OnRow(r, e).value.slots[j].None? == (start == Even(Count(was + [e.sub.currentRequest], j)))
  {
    RowToggles(r, e, j);
    CountNext(was, e.sub.currentRequest, j);
  }

  /** A slot changes between empty and filled with every arrival of its index. */
  lemma {:induction false} SlotsToggle(t: seq<Request>, es: seq<Event>, p: nat, r: Request, j: nat)
    returns (r': Request)
    requires Holds(t, p, r) && Execute(t, es).Ok? && OnlyArrives(es, p) && j < |r.slots|
    ensures Holds(Execute(t, es).value, p, r') && |r'.slots| == |r.slots|
    ensures r'.slots[j].None? == (r.slots[j].None? == Even(Count(Indices(es, p), j)))
  {
    if es == [] {
      r' := r;
      assert Even(Count([], j));
    } else {
      var (before, e) := (es[..|es| - 1], es[|es| - 1]);
      var mid := SlotsToggle(t, before, p, r, j);
      StepOnHeld(Execute(t, before).value, e, p, mid);
      if e.Arrive? && e.parent == p {
        r' := OnRow(mid, e).value;
        ToggleOnce(Indices(before, p), mid, e, j, r.slots[j].None?);
        assert Indices(es, p) == Indices(before, p) + [e.sub.currentRequest];
      } else {
        r' := mid;
        assert Indices(es, p) == Indices(before, p);
      }
    }
  }

  lemma {:induction false} CountOnce(s: seq<int>, j: int)
    requires NoDuplicates(s)
    ensures Count(s, j) == if j in s then 1 else 0
  {
    if s != [] {
      var (front, last) := (s[..|s| - 1], s[|s| - 1]);
      CountOnce(front, j);
      assert s == front + [last];
      assert forall k :: 0 <= k < |front| ==> front[k] == s[k] != last;
    }
  }

  /** What the memory splitter asks: are all but the last `extra` slots filled? */
  ghost predicate RequiredArrived(t: seq<Request>, p: nat, extra: nat) {
    var i := Find(t, p);
    i < |t| && forall j :: 0 <= j < |t[i].slots| - extra ==> t[i].slots[j].Some?
  }

  /** Slots queued empty: the answer is right when no index arrives twice. */
  lemma RequiredIsExact(t: seq<Request>, es: seq<Event>, p: nat, r: Request, extra: nat)
    requires Holds(t, p, r) && Execute(t, es).Ok? && OnlyArrives(es, p) && NoDuplicates(Indices(es, p))
    requires forall j :: 0 <= j < |r.slots| ==> r.slots[j].None?
    ensures RequiredArrived(Execute(t, es).value, p, extra) <==>
            forall j :: 0 <= j < |r.slots| - extra ==> j in Indices(es, p)
  {
    var after := CounterCounts(t, es, p, r);
    forall j: nat | j < |r.slots| ensures after.slots[j].Some? <==> j in Indices(es, p) {
      SlotAfter(t, es, p, r, after, j);
    }
  }

  lemma SlotAfter(t: seq<Request>, es: seq<Event>, p: nat, r: Request, after: Request, j: nat)
    requires Holds(t, p, r) && Execute(t, es).Ok? && OnlyArrives(es, p) && NoDuplicates(Indices(es, p))
    requires Holds(Execute(t, es).value, p, after) && j < |r.slots| == |after.slots|
    ensures after.slots[j].None? == (r.slots[j].None? == (j !in Indices(es, p)))
  {
    var same := SlotsToggle(t, es, p, r, j);
    HeldOnce(Execute(t, es).value, p, same, after);
    var a := Indices(es, p);
    EvenUnlessIn(a, j);
  }

  lemma HeldOnce(t: seq<Request>, p: nat, r: Request, s: Request)
    requires Holds(t, p, r) && Holds(t, p, s)
    ensures r == s
  {}

  lemma EvenUnlessIn(s: seq<int>, j: int)
    requires NoDuplicates(s)
    ensures Even(Count(s, j)) <==> j !in s
  {
    CountOnce(s, j);
  }

  /** Slots linked beforehand: the filled ones are those still awaited. */
  lemma LinkedAreAwaited(t: seq<Request>, es: seq<Event>, p: nat, r: Request) returns (r': Request)
    requires Holds(t, p, r) && Execute(t, es).Ok? && OnlyArrives(es, p) && NoDuplicates(Indices(es, p))
    requires forall j :: 0 <= j < |r.slots| ==> r.slots[j].Some?
    ensures Holds(Execute(t, es).value, p, r') && |r'.slots| == |r.slots|
    ensures forall j :: 0 <= j < |r.slots| ==> (r'.slots[j].Some? <==> j !in Indices(es, p))
  {
    r' := CounterCounts(t, es, p, r);
    forall j: nat | j < |r.slots| ensures r'.slots[j].Some? <==> j !in Indices(es, p) {
      SlotAfter(t, es, p, r, r', j);
    }
  }

  // ---------------------------------------------------------------- slots that are popped

  /** What an event does to slot j: a link fills it, a pop empties it, an arrival turns it over, and an
      event for another slot leaves it. Only an arrival is counted. */
  lemma SlotAfterEvent(r: Request, e: Event, j: nat)
    requires (e.Link? || e.Pop? || e.Arrive?) && j < |r.slots|
    ensures OnRow(r, e).Ok? <==> 0 <= (if e.Arrive? then e.sub.currentRequest else e.index) < |r.slots|
    ensures OnRow(r, e).Ok? ==>
              var (r', i) := (OnRow(r, e).value, if e.Arrive? then e.sub.currentRequest else e.index);
              && r'.parent == r.parent && |r'.slots| == |r.slots|
              && r'.arrived == (if e.Arrive? then r.arrived + 1 else r.arrived)
              && (i != j ==> r'.slots[j] == r.slots[j])
              && (i == j && e.Link? ==> r'.slots[j] == Some(e.sub))
              && (i == j && e.Pop? ==> r'.slots[j] == None)
              && (i == j && e.Arrive? ==> r'.slots[j] == if r.slots[j].None? then Some(e.sub) else None)
  {}

  /** A second pop finds nothing and changes nothing. */
  lemma PopTwice(r: Request, p: nat, i: nat)
    requires i < |r.slots|
    ensures var once := OnRow(r, Pop(p, i)).value;
            once.slots[i] == None && OnRow(once, Pop(p, i)) == Ok(once)
  {
    var once := OnRow(r, Pop(p, i)).value;
    assert once.slots[i := None] == once.slots;
  }

  /** The indices that have been popped from a parent, in order. */
  function Popped(es: seq<Event>, p: nat): seq<int> {
    if es == [] then []
    else
      var e := es[|es| - 1];
      Popped(es[..|es| - 1], p) + (if e.Pop? && e.parent == p then [e.index] else [])
  }

  /** How a parent's linked sub-requests are sent: each is popped before it comes back, comes back at
      most once, and is not popped after that; none is linked again, and the row stays. */
  predicate SentThenBack(es: seq<Event>, p: nat) {
    es != [] ==>
      var (before, e) := (es[..|es| - 1], es[|es| - 1]);
      && SentThenBack(before, p)
      && (e.parent == p ==>
            match e
            case Pop(_, i) => i !in Indices(before, p)
            case Arrive(_, sub) => sub.currentRequest in Popped(before, p) && sub.currentRequest !in Indices(before, p)
            case Add(_, _) => true
            case _ => false)
  }

  lemma {:induction false} SentKeepsParent(es: seq<Event>, p: nat)
    requires SentThenBack(es, p)
    ensures KeepsParent(es, p)
  {
    if es != [] {
      SentKeepsParent(es[..|es| - 1], p);
      assert es == es[..|es| - 1] + [es[|es| - 1]];
    }
  }

  /** Slot j of a parent whose sub-requests are sent like that: linked as at the start until it is popped,
      then empty, and from its arrival on it holds the message that arrived. */
  ghost predicate SlotIsRight(es: seq<Event>, p: nat, start: Option<Message>, slot: Option<Message>, j: int) {
    if j !in Popped(es, p) then slot == start
    else if j !in Indices(es, p) then slot == None
    else slot.Some? && slot.value.currentRequest == j && Arrive(p, slot.value) in es
  }

  lemma SlotStaysRight(es: seq<Event>, p: nat, e: Event, start: Option<Message>, slot: Option<Message>, j: int)
    requires SlotIsRight(es, p, start, slot, j)
    requires (e.Pop? && j != e.index && Popped(es + [e], p) == Popped(es, p) + [e.index])
             || Popped(es + [e], p) == Popped(es, p)
    requires (e.Arrive? && j != Index(e) && Indices(es + [e], p) == Indices(es, p) + [Index(e)])
             || Indices(es + [e], p) == Indices(es, p)
    ensures SlotIsRight(es + [e], p, start, slot, j)
  {}

  lemma PoppedNext(es: seq<Event>, p: nat, e: Event)
    ensures Popped(es + [e], p) == Popped(es, p) + (if e.Pop? && e.parent == p then [e.index] else [])
    ensures Indices(es + [e], p) == Indices(es, p) + (if e.Arrive? && e.parent == p then [e.sub.currentRequest] else [])
  {
    assert (es + [e])[..|es|] == es;
  }

  lemma SlotStep(es: seq<Event>, p: nat, e: Event, start: Option<Message>, r: Request, j: nat)
    requires e.parent == p && SentThenBack(es + [e], p) && (e.Pop? || e.Arrive?) && OnRow(r, e).Ok? && j < |r.slots|
    requires SlotIsRight(es, p, start, r.slots[j], j)
    ensures SlotIsRight(es + [e], p, start, OnRow(r, e).value.slots[j], j)
  {
    assert (es + [e])[..|es|] == es;
    PoppedNext(es, p, e);
    SlotAfterEvent(r, e, j);
    assert (es + [e])[|es|] == e;
    if j != Index(e) {
      SlotStaysRight(es, p, e, start, r.slots[j], j);
    }
  }

  /** At every moment of such a run, with any other parents in between, each slot is right. */
  lemma {:induction false} SentSlots(t: seq<Request>, es: seq<Event>, p: nat, r: Request, j: nat) returns (r': Request)
    requires Holds(t, p, r) && Execute(t, es).Ok? && SentThenBack(es, p) && j < |r.slots|
    ensures Holds(Execute(t, es).value, p, r') && |r'.slots| == |r.slots|
    ensures SlotIsRight(es, p, r.slots[j], r'.slots[j], j)
  {
    if es == [] {
      r' := r;
    } else {
      var (before, e) := (es[..|es| - 1], es[|es| - 1]);
      var mid := SentSlots(t, before, p, r, j);
      StepOnHeld(Execute(t, before).value, e, p, mid);
      assert es == before + [e];
      PoppedNext(before, p, e);
      if e.parent == p && !e.Add? {
        SlotStep(before, p, e, r.slots[j], mid, j);
        SlotAfterEvent(mid, e, j);
        r' := OnRow(mid, e).value;
      } else {
        SlotStaysRight(before, p, e, r.slots[j], mid.slots[j], j);
        r' := mid;
      }
    }
  }

  /** Once all linked sub-requests have been popped, the filled slots are exactly those of the indices
      that have arrived. */
  lemma PoppedSlotsAreArrivals(t: seq<Request>, es: seq<Event>, p: nat, r: Request) returns (r': Request)
    requires Holds(t, p, r) && Execute(t, es).Ok? && SentThenBack(es, p) && Covers(Popped(es, p), |r.slots|)
    ensures Holds(Execute(t, es).value, p, r') && |r'.slots| == |r.slots|
    ensures r'.arrived == r.arrived + |Indices(es, p)|
    ensures forall j :: 0 <= j < |r.slots| ==> (r'.slots[j].Some? <==> j in Indices(es, p))
  {
    SentKeepsParent(es, p);
    r' := CounterCounts(t, es, p, r);
    forall j: nat | j < |r.slots| ensures r'.slots[j].Some? <==> j in Indices(es, p) {
      var same := SentSlots(t, es, p, r, j);
      HeldOnce(Execute(t, es).value, p, same, r');
    }
  }

  // ---------------------------------------------------------------- rows that come and go

  /** A parent's own rows: a new one goes behind them, and removing takes the first. What is asked of a
      parent without a row is an error, except a pop, which finds nothing. */
  lemma OwnRowsChange(t: seq<Request>, p: nat, n: nat, e: Event)
    ensures Step(t, Add(p, n)).Ok?
    ensures Rows(Step(t, Add(p, n)).value, p) == Rows(t, p) + [Request(p, seq(n, i => None), 0)]
    ensures Rows(t, p) != [] ==>
              Step(t, Remove(p)).Ok? && Rows(Step(t, Remove(p)).value, p) == Rows(t, p)[1..]
    ensures Rows(t, e.parent) == [] && !e.Add? ==> Step(t, e) == if e.Pop? then Ok(t) else Err(RequestNotFound)
  {
    AddIsLocal(t, Add(p, n), p);
    if Rows(t, p) != [] {
      FirstRemoved(t, p);
    }
    if Rows(t, e.parent) == [] && !e.Add? {
      FirstRow(t, e.parent);
      NoOwnRow(t, e);
    }
  }

  lemma FirstRemoved(t: seq<Request>, p: nat)
    requires Rows(t, p) != []
    ensures Step(t, Remove(p)).Ok? && Rows(Step(t, Remove(p)).value, p) == Rows(t, p)[1..]
  {
    var i := Find(t, p);
    FirstRow(t, p);
    StepAtRow(t, Remove(p), i);
    RowRemoved(t, p, p, i);
  }
}
