/** Sending a trace through a communication buffer and rebuilding it at the other end. */
module TracePacking {
  import opened Trace

  datatype Item = Number(i: int) | Text(s: string)

  /** The buffer: what is packed first is unpacked first. */
  class CommBuffer {
    var items: seq<Item>

    constructor ()
      ensures items == []
    {
      items := [];
    }

    method Pack(item: Item)
      modifies this
      ensures items == old(items) + [item]
    {
      items := items + [item];
    }

    method Unpack() returns (item: Item)
      requires items != []
      modifies this
      ensures item == old(items)[0] && items == old(items)[1..]
    {
      item := items[0];
      items := items[1..];
    }
  }

  /** What a C string shows of a host name. */
  function CString(s: string): string {
    if s == [] || s[0] == '\0' then "" else [s[0]] + CString(s[1..])
  }

  // ---------------------------------------------------------------- the packed form

  function Flat(xs: seq<seq<Item>>): seq<Item> {
    if xs == [] then [] else xs[0] + Flat(xs[1..])
  }

  lemma {:induction false} FlatNext(xs: seq<seq<Item>>, x: seq<Item>)
    ensures Flat(xs + [x]) == Flat(xs) + x
  {
    if xs == [] {
      assert [x][1..] == [];
      assert x + [] == x;
    } else {
      assert (xs + [x])[1..] == xs[1..] + [x];
      FlatNext(xs[1..], x);
    }
  }

  lemma FlatGrows(start: seq<Item>, parts: seq<seq<Item>>, i: nat)
    requires i < |parts|
    ensures start + Flat(parts[..i + 1]) == start + Flat(parts[..i]) + parts[i]
  {
    assert parts[..i + 1] == parts[..i] + [parts[i]];
    FlatNext(parts[..i], parts[i]);
    assert start + (Flat(parts[..i]) + parts[i]) == start + Flat(parts[..i]) + parts[i];
  }

  function PackedRequests(reqs: seq<ReqNum>): seq<Item> {
    seq(|reqs|, i requires 0 <= i < |reqs| => Number(reqs[i]))
  }

  function PackedModule(m: TraceComponent): seq<Item> {
    [Number(m.moduleID), Number(m.gateID), Number(|m.reqs|)] + PackedRequests(m.reqs)
  }

  function PackedModules(ms: seq<TraceComponent>): seq<seq<Item>> {
    seq(|ms|, i requires 0 <= i < |ms| => PackedModule(ms[i]))
  }

  function PackedNode(n: NodeTrace): seq<Item> {
    [Text(CString(n.host)), Number(|n.modules|)] + Flat(PackedModules(n.modules))
  }

  function PackedNodes(t: seq<NodeTrace>): seq<seq<Item>> {
    seq(|t|, i requires 0 <= i < |t| => PackedNode(t[i]))
  }

  function Packed(t: seq<NodeTrace>): seq<Item> {
    [Number(|t|)] + Flat(PackedNodes(t))
  }

  lemma FirstModule(ms: seq<TraceComponent>, j: nat, rest: seq<Item>)
    requires j < |ms|
    ensures Flat(PackedModules(ms[j..])) + rest == PackedModule(ms[j]) + (Flat(PackedModules(ms[j + 1..])) + rest)
  {
    assert PackedModules(ms[j..])[1..] == PackedModules(ms[j + 1..]);
  }

  lemma FirstNode(t: seq<NodeTrace>, i: nat, rest: seq<Item>)
    requires i < |t|
    ensures Flat(PackedNodes(t[i..])) + rest == PackedNode(t[i]) + (Flat(PackedNodes(t[i + 1..])) + rest)
  {
    assert PackedNodes(t[i..])[1..] == PackedNodes(t[i + 1..]);
  }

  /** The packed form of a node with one module. */
  lemma PackedForm(host: string, m: TraceComponent, r: ReqNum, q: ReqNum)
    requires m.reqs == [r, q]
    ensures Packed([NodeTrace(host, [m])]) ==
            [Number(1), Text(CString(host)), Number(1)]
            + [Number(m.moduleID), Number(m.gateID), Number(2), Number(r), Number(q)]
  {
    var n := NodeTrace(host, [m]);
    assert PackedModules([m]) == [PackedModule(m)] && PackedNodes([n]) == [PackedNode(n)];
    assert [PackedModule(m)][1..] == [] && [PackedNode(n)][1..] == [];
    assert Flat([PackedModule(m)]) == PackedModule(m) && Flat([PackedNode(n)]) == PackedNode(n);
    assert PackedRequests([r, q]) == [Number(r), Number(q)];
  }

  method ParsimPack(trace: seq<NodeTrace>, b: CommBuffer)
    modifies b
    ensures b.items == old(b.items) + Packed(trace)
  {
    b.Pack(Number(|trace|));
    ghost var (start, parts) := (b.items, PackedNodes(trace));
    for i := 0 to |trace|
      invariant b.items == start + Flat(parts[..i])
    {
      PackNode(trace[i], b);
      FlatGrows(start, parts, i);
    }
    assert parts[..|trace|] == parts;
  }

  method PackNode(n: NodeTrace, b: CommBuffer)
    modifies b
    ensures b.items == old(b.items) + PackedNode(n)
  {
    b.Pack(Text(CString(n.host)));
    b.Pack(Number(|n.modules|));
    ghost var (start, parts) := (b.items, PackedModules(n.modules));
    for j := 0 to |n.modules|
      invariant b.items == start + Flat(parts[..j])
    {
      PackModule(n.modules[j], b);
      FlatGrows(start, parts, j);
    }
    assert parts[..|n.modules|] == parts;
  }

  method PackModule(m: TraceComponent, b: CommBuffer)
    modifies b
    ensures b.items == old(b.items) + PackedModule(m)
  {
    b.Pack(Number(m.moduleID));
    b.Pack(Number(m.gateID));
    b.Pack(Number(|m.reqs|));
    ghost var start := b.items;
    for k := 0 to |m.reqs|
      invariant b.items == start + PackedRequests(m.reqs)[..k]
    {
      b.Pack(Number(m.reqs[k]));
    }
  }

  // ---------------------------------------------------------------- what comes back

  /** A request number that is handed on as an int. */
  function Narrowed(r: ReqNum): ReqNum { ToReqNum(ToInt32(r)) }

  /** Only the first request number of a module is handed on at full width. */
  function Received(reqs: seq<ReqNum>): seq<ReqNum> {
    seq(|reqs|, k requires 0 <= k < |reqs| => if k == 0 then reqs[0] else Narrowed(reqs[k]))
  }

  /** Modules without request numbers are lost. */
  function ReceivedModules(ms: seq<TraceComponent>): seq<TraceComponent> {
    if ms == [] then []
    else ReceivedModules(ms[..|ms| - 1]) + ReceivedModule(ms[|ms| - 1])
  }

  function ReceivedModule(m: TraceComponent): seq<TraceComponent> {
    if m.reqs == [] then [] else [TraceComponent(m.moduleID, m.gateID, Received(m.reqs))]
  }

  function ReceivedNode(n: NodeTrace): NodeTrace {
    NodeTrace(CString(n.host), ReceivedModules(n.modules))
  }

  function ReceivedTrace(t: seq<NodeTrace>): seq<NodeTrace> {
    seq(|t|, i requires 0 <= i < |t| => ReceivedNode(t[i]))
  }

  /** Unpacks what was packed for the trace t into a message, behind what its trace holds already. */
  method ParsimUnpack(msg: IcancloudMessage, b: CommBuffer, ghost t: seq<NodeTrace>, ghost rest: seq<Item>)
    requires b.items == Packed(t) + rest
    modifies msg, b
    ensures b.items == rest && msg.trace == old(msg.trace) + ReceivedTrace(t)
  {
    var numNodes := b.Unpack();
    assert t[0..] == t && b.items == Flat(PackedNodes(t[0..])) + rest;
    for i := 0 to numNodes.i
      invariant numNodes == Number(|t|)
      invariant b.items == Flat(PackedNodes(t[i..])) + rest
      invariant msg.trace == old(msg.trace) + ReceivedTrace(t)[..i]
    {
      FirstNode(t, i, rest);
      UnpackNode(msg, b, t[i], Flat(PackedNodes(t[i + 1..])) + rest);
      ReceivedGrows(old(msg.trace), t, i);
    }
  }

  lemma ReceivedGrows(start: seq<NodeTrace>, t: seq<NodeTrace>, i: nat)
    requires i < |t|
    ensures start + ReceivedTrace(t)[..i] + [ReceivedNode(t[i])] == start + ReceivedTrace(t)[..i + 1]
  {}

  method UnpackNode(msg: IcancloudMessage, b: CommBuffer, ghost n: NodeTrace, ghost rest: seq<Item>)
    requires b.items == PackedNode(n) + rest
    modifies msg, b
    ensures b.items == rest && msg.trace == old(msg.trace) + [ReceivedNode(n)]
  {
    var hostname := b.Unpack();
    msg.AddNodeToTrace(hostname.s);
    var numModules := b.Unpack();
    assert n.modules[0..] == n.modules && b.items == Flat(PackedModules(n.modules[0..])) + rest;
    for j := 0 to numModules.i
      invariant numModules == Number(|n.modules|)
      invariant b.items == Flat(PackedModules(n.modules[j..])) + rest
      invariant msg.trace == old(msg.trace) + [NodeTrace(CString(n.host), ReceivedModules(n.modules[..j]))]
    {
      FirstModule(n.modules, j, rest);
      UnpackModule(msg, b, n.modules[j], Flat(PackedModules(n.modules[j + 1..])) + rest);
      ReceivedNext(old(msg.trace), CString(n.host), n.modules, j);
    }
    assert n.modules[..|n.modules|] == n.modules;
  }

  /** A received module goes behind those that were received before it. */
  lemma ReceivedNext(t: seq<NodeTrace>, host: string, ms: seq<TraceComponent>, j: nat)
    requires j < |ms|
    ensures var before := t + [NodeTrace(host, ReceivedModules(ms[..j]))];
            SetModules(before, Last(before).modules + ReceivedModule(ms[j])) ==
            t + [NodeTrace(host, ReceivedModules(ms[..j + 1]))]
  {
    assert ms[..j + 1][..j] == ms[..j];
    assert Front(t + [NodeTrace(host, ReceivedModules(ms[..j]))]) == t;
  }

  /** The trace t when k numbers of module m have been received. */
  function WithReceived(t: seq<NodeTrace>, m: TraceComponent, k: nat): seq<NodeTrace>
    requires t != [] && k <= |m.reqs|
  {
    if k == 0 then t
    else SetModules(t, Last(t).modules + [TraceComponent(m.moduleID, m.gateID, Received(m.reqs)[..k])])
  }

  /** The first number opens the module, the others are added to it. */
  lemma NumberReceived(t: seq<NodeTrace>, m: TraceComponent, k: nat)
    requires t != [] && k < |m.reqs|
    ensures k == 0 ==> WithModule(t, m.moduleID, m.gateID, m.reqs[0]) == WithReceived(t, m, 1)
    ensures k > 0 ==>
              var before := WithReceived(t, m, k);
              HasModule(before) && WithRequest(before, Narrowed(m.reqs[k])) == WithReceived(t, m, k + 1)
  {
    if k == 0 {
      assert [m.reqs[0]] == Received(m.reqs)[..1];
    } else {
      assert Received(m.reqs)[..k] + [Narrowed(m.reqs[k])] == Received(m.reqs)[..k + 1];
    }
  }

  lemma AllReceived(t: seq<NodeTrace>, m: TraceComponent)
    requires t != []
    ensures WithReceived(t, m, |m.reqs|) ==
            SetModules(t, Last(t).modules + ReceivedModule(m))
  {
    assert Last(t).modules + [] == Last(t).modules;
    assert t == Front(t) + [Last(t)];
    assert m.reqs != [] ==> Received(m.reqs)[..|m.reqs|] == Received(m.reqs);
  }

  lemma FirstNumber(reqs: seq<ReqNum>, k: nat, rest: seq<Item>)
    requires k < |reqs|
    ensures PackedRequests(reqs)[k..] + rest == [Number(reqs[k])] + (PackedRequests(reqs)[k + 1..] + rest)
  {}

  method UnpackModule(msg: IcancloudMessage, b: CommBuffer, ghost m: TraceComponent, ghost rest: seq<Item>)
    requires b.items == PackedModule(m) + rest && msg.trace != []
    modifies msg, b
    ensures b.items == rest
    ensures msg.trace == SetModules(old(msg.trace), Last(old(msg.trace)).modules + ReceivedModule(m))
  {
    ghost var before := msg.trace;
    var moduleID := b.Unpack();
    var gateID := b.Unpack();
    var numRequests := b.Unpack();
    assert b.items == PackedRequests(m.reqs)[0..] + rest;
    for k := 0 to numRequests.i
      invariant numRequests == Number(|m.reqs|)
      invariant b.items == PackedRequests(m.reqs)[k..] + rest
      invariant msg.trace == WithReceived(before, m, k)
    {
      FirstNumber(m.reqs, k, rest);
      NumberReceived(before, m, k);
      var req := b.Unpack();
      if k == 0 {
        var r := msg.AddModuleToTrace(moduleID.i, gateID.i, req.i);
      } else {
        var r := msg.AddRequestToTrace(ToInt32(req.i));
      }
    }
    AllReceived(before, m);
  }

  // ---------------------------------------------------------------- when the trace survives

  /** Every module has request numbers, and those behind the first are numbers that an int can carry;
      host names have no NUL character. */
  predicate IntSized(r: ReqNum) { r < TWO_32 / 2 || r >= TWO_64 - TWO_32 / 2 }

  predicate ModuleSurvives(m: TraceComponent) {
    m.reqs != [] && forall k :: 1 <= k < |m.reqs| ==> IntSized(m.reqs[k])
  }

  predicate NodeSurvives(n: NodeTrace) {
    '\0' !in n.host && AllSurvive(n.modules)
  }

  predicate AllSurvive(ms: seq<TraceComponent>) {
    forall j :: 0 <= j < |ms| ==> ModuleSurvives(ms[j])
  }

  predicate Survives(t: seq<NodeTrace>) {
    forall i :: 0 <= i < |t| ==> NodeSurvives(t[i])
  }

  lemma NarrowedIsSame(r: ReqNum)
    ensures Narrowed(r) == r <==> IntSized(r)
  {
    var low := r % TWO_32;
    assert r >= TWO_64 - TWO_32 / 2 ==> low == r - (TWO_64 - TWO_32);
  }

  lemma {:induction false} CStringIsSame(s: string)
    ensures CString(s) == s <==> '\0' !in s
  {
    if s != [] && s[0] != '\0' {
      CStringIsSame(s[1..]);
      assert s == [s[0]] + s[1..];
    }
  }

  lemma ReceivedIsSame(reqs: seq<ReqNum>)
    ensures Received(reqs) == reqs <==> forall k :: 1 <= k < |reqs| ==> IntSized(reqs[k])
  {
    forall k | 0 <= k < |reqs| ensures Received(reqs)[k] == reqs[k] <==> k == 0 || IntSized(reqs[k]) {
      NarrowedIsSame(reqs[k]);
    }
  }

  lemma {:induction false} ModulesReceived(ms: seq<TraceComponent>)
    ensures |ReceivedModules(ms)| <= |ms|
    ensures ReceivedModules(ms) == ms <==> AllSurvive(ms)
  {
    if ms != [] {
      var (front, m) := (ms[..|ms| - 1], ms[|ms| - 1]);
      ModulesReceived(front);
      LastReceived(m);
      SameWithLast(ReceivedModules(front), ReceivedModule(m), front, m);
      SurviveWithLast(front, m);
      assert ms == front + [m];
    }
  }

  lemma LastReceived(m: TraceComponent)
    ensures |ReceivedModule(m)| <= 1 && (ReceivedModule(m) == [m] <==> ModuleSurvives(m))
  {
    ReceivedIsSame(m.reqs);
  }

  lemma SurviveWithLast(front: seq<TraceComponent>, m: TraceComponent)
    ensures AllSurvive(front + [m]) <==> AllSurvive(front) && ModuleSurvives(m)
  {
    assert (front + [m])[|front|] == m;
    assert forall j :: 0 <= j < |front| ==> (front + [m])[j] == front[j];
  }

  lemma SameWithLast(r: seq<TraceComponent>, last: seq<TraceComponent>, front: seq<TraceComponent>, m: TraceComponent)
    requires |r| <= |front| && |last| <= 1
    ensures r + last == front + [m] <==> r == front && last == [m]
  {
    if r + last == front + [m] {
      assert r == (r + last)[..|r|] && |r| == |front|;
      assert (r + last)[|r|] == m;
    }
  }

  /** Rebuilding gives the identical trace if and only if the trace meets the condition. */
  lemma RoundTrip(t: seq<NodeTrace>)
    ensures ReceivedTrace(t) == t <==> Survives(t)
  {
    forall i | 0 <= i < |t| ensures ReceivedTrace(t)[i] == t[i] <==> NodeSurvives(t[i]) {
      CStringIsSame(t[i].host);
      ModulesReceived(t[i].modules);
    }
  }

  /** The operations by which a message travels keep the condition. */
  lemma StackKeepsIt(t: seq<NodeTrace>, host: string, module_: Int32, gate: Int32, first: ReqNum, request: Int32)
    requires Survives(t)
    ensures '\0' !in host ==> Survives(WithNode(t, host))
    ensures t != [] ==> Survives(WithModule(t, module_, gate, first)) && Survives(Front(t))
    ensures HasModule(t) ==> Survives(SetModules(t, Front(Last(t).modules)))
    ensures HasModule(t) ==> Survives(WithRequest(t, ToReqNum(request)))
  {
    NarrowedIsSame(ToReqNum(request));
  }

  /** Popping a request number keeps it while another one is left. */
  lemma PopRequestKeepsIt(t: seq<NodeTrace>)
    requires Survives(t) && HasRequest(t)
    ensures Survives(SetRequests(t, Front(LastModule(t).reqs))) <==> |LastModule(t).reqs| > 1
  {
    var t' := SetRequests(t, Front(LastModule(t).reqs));
    assert Last(t') == t'[|t| - 1] && LastModule(t') == Last(t').modules[|Last(t).modules| - 1];
  }
}
