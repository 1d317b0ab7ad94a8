/** The message trace: a stack of nodes, modules and request numbers that routes a response. */
module Trace {
  import opened Text
  import opened Wrappers

  const TWO_32 := 0x1_0000_0000
  const TWO_64 := 0x1_0000_0000_0000_0000

  /** Request numbers are 64-bit unsigned. */
  type ReqNum = r: int | 0 <= r < TWO_64

  type Int32 = i: int | -(TWO_32 / 2) <= i < TWO_32 / 2

  datatype TraceComponent = TraceComponent(moduleID: Int32, gateID: Int32, reqs: seq<ReqNum>)

  datatype NodeTrace = NodeTrace(host: string, modules: seq<TraceComponent>)

  /** The conversions of the compiler between int and a request number. */
  function ToReqNum(i: Int32): ReqNum { if i < 0 then TWO_64 + i else i }

  function ToInt32(r: ReqNum): Int32 {
    var low := r % TWO_32;
    if low < TWO_32 / 2 then low else low - TWO_32
  }

  // ---------------------------------------------------------------- the stack

  function Last<T>(s: seq<T>): T
    requires s != []
  {
    s[|s| - 1]
  }

  function Front<T>(s: seq<T>): seq<T>
    requires s != []
  {
    s[..|s| - 1]
  }

  predicate HasModule(t: seq<NodeTrace>) { t != [] && Last(t).modules != [] }

  predicate HasRequest(t: seq<NodeTrace>) { HasModule(t) && Last(Last(t).modules).reqs != [] }

  function LastModule(t: seq<NodeTrace>): TraceComponent
    requires HasModule(t)
  {
    Last(Last(t).modules)
  }

  function SetModules(t: seq<NodeTrace>, modules: seq<TraceComponent>): seq<NodeTrace>
    requires t != []
  {
    Front(t) + [NodeTrace(Last(t).host, modules)]
  }

  function SetRequests(t: seq<NodeTrace>, reqs: seq<ReqNum>): seq<NodeTrace>
    requires HasModule(t)
  {
    var m := LastModule(t);
    SetModules(t, Front(Last(t).modules) + [TraceComponent(m.moduleID, m.gateID, reqs)])
  }

  function WithNode(t: seq<NodeTrace>, host: string): seq<NodeTrace> { t + [NodeTrace(host, [])] }

  function WithModule(t: seq<NodeTrace>, module_: Int32, gate: Int32, req: ReqNum): seq<NodeTrace>
    requires t != []
  {
    SetModules(t, Last(t).modules + [TraceComponent(module_, gate, [req])])
  }

  function WithRequest(t: seq<NodeTrace>, req: ReqNum): seq<NodeTrace>
    requires HasModule(t)
  {
    SetRequests(t, LastModule(t).reqs + [req])
  }

  /** What is read from a trace is what was recorded last, and removing it gives back the trace before:
      the gate of a module, its first number, and a number that was added. */
  lemma RecordsAreReadBack(t: seq<NodeTrace>, module_: Int32, gate: Int32, req: ReqNum, i: Int32)
    requires t != []
    ensures var u := WithModule(t, module_, gate, req);
            && HasRequest(u) && LastModule(u) == TraceComponent(module_, gate, [req])
            && SetModules(u, Front(Last(u).modules)) == t
    ensures var u := WithModule(t, module_, gate, req);
            var v := WithRequest(u, ToReqNum(i));
            && HasRequest(v) && ToInt32(Last(LastModule(v).reqs)) == i
            && LastModule(v) == TraceComponent(module_, gate, [req, ToReqNum(i)])
            && SetRequests(v, Front(LastModule(v).reqs)) == u
  {
    var c := TraceComponent(module_, gate, [req]);
    var u := WithModule(t, module_, gate, req);
    var (front, modules) := (Front(t), Last(t).modules);
    assert t == front + [Last(t)] && Front(u) == front && Last(u) == NodeTrace(Last(t).host, modules + [c]);
    assert Front(modules + [c]) == modules && Last(modules + [c]) == c;
    var v := WithRequest(u, ToReqNum(i));
    var d := TraceComponent(module_, gate, [req] + [ToReqNum(i)]);
    assert Front(v) == front && Last(v) == NodeTrace(Last(t).host, modules + [d]);
    assert Front(modules + [d]) == modules && Last(modules + [d]) == d;
    assert Front(d.reqs) == [req];
  }

  // ---------------------------------------------------------------- printing

  function RequestTexts(reqs: seq<ReqNum>): seq<string> {
    seq(|reqs|, i requires 0 <= i < |reqs| => Decimal(reqs[i]))
  }

  function Head(m: TraceComponent): string { Signed(m.moduleID) + "," + Signed(m.gateID) + ":" }

  function RequestsText(reqs: seq<ReqNum>): string { Join(RequestTexts(reqs), '.') }

  function ModuleText(m: TraceComponent): string { Head(m) + RequestsText(m.reqs) }

  function ModuleTexts(ms: seq<TraceComponent>): seq<string> {
    seq(|ms|, i requires 0 <= i < |ms| => ModuleText(ms[i]))
  }

  function ModulesText(ms: seq<TraceComponent>): string { Join(ModuleTexts(ms), '/') }

  function NodeText(n: NodeTrace): string { n.host + "@" + ModulesText(n.modules) }

  function NodeTexts(t: seq<NodeTrace>): seq<string> {
    seq(|t|, i requires 0 <= i < |t| => NodeText(t[i]))
  }

  function Print(t: seq<NodeTrace>): string { Join(NodeTexts(t), '|') }

  lemma PrintNext(t: seq<NodeTrace>, i: nat, line: string)
    requires i < |t| && line == Print(t[..i])
    ensures (if i != 0 then line + "|" else line) + NodeText(t[i]) == Print(t[..i + 1])
  {
    var texts := NodeTexts(t);
    assert NodeTexts(t[..i]) == texts[..i] && NodeTexts(t[..i + 1]) == texts[..i + 1];
    JoinStep(texts, i, line, '|');
  }

  lemma PrintModulesNext(ms: seq<TraceComponent>, j: nat, text: string)
    requires j < |ms| && text == ModulesText(ms[..j])
    ensures (if j != 0 then text + "/" else text) + ModuleText(ms[j]) == ModulesText(ms[..j + 1])
  {
    var texts := ModuleTexts(ms);
    assert ModuleTexts(ms[..j]) == texts[..j] && ModuleTexts(ms[..j + 1]) == texts[..j + 1];
    JoinStep(texts, j, text, '/');
  }

  predicate Extends(child: string, parent: string, d: string) {
    child == parent + "." + d && '.' !in d && ':' !in d
  }

  /** The printed child is the printed parent with a dot and something behind it that has neither dots
      nor colons; and the parent has a colon. */
  ghost predicate Fits(child: string, parent: string) {
    ':' in parent && exists d :: Extends(child, parent, d)
  }

  datatype Error = TraceIsEmpty

  class IcancloudMessage {
    var trace: seq<NodeTrace>

    constructor ()
      ensures trace == []
    {
      trace := [];
    }

    method AddModuleToTrace(module_: Int32, gate: Int32, currentRequest: ReqNum) returns (r: Result<(), Error>)
      modifies this
      ensures r.Err? <==> old(trace) == []
      ensures trace == if r.Ok? then WithModule(old(trace), module_, gate, currentRequest) else old(trace)
    {
      if trace == [] {
        return Err(TraceIsEmpty);
      }
      var component := TraceComponent(module_, gate, [currentRequest]);
      var node := trace[|trace| - 1];
      trace := trace[|trace| - 1 := node.(modules := node.modules + [component])];
      r := Ok(());
    }

    method RemoveLastModuleFromTrace() returns (r: Result<(), Error>)
      requires trace != [] ==> HasModule(trace)
      modifies this
      ensures r.Err? <==> old(trace) == []
      ensures trace == if r.Ok? then SetModules(old(trace), Front(Last(old(trace)).modules)) else old(trace)
    {
      if trace == [] {
        return Err(TraceIsEmpty);
      }
      var node := trace[|trace| - 1];
      trace := trace[|trace| - 1 := node.(modules := node.modules[..|node.modules| - 1])];
      r := Ok(());
    }

    method AddNodeToTrace(node: string)
      modifies this
      ensures trace == WithNode(old(trace), node)
    {
      trace := trace + [NodeTrace(node, [])];
    }

    method RemoveLastNodeFromTrace() returns (r: Result<(), Error>)
      modifies this
      ensures r.Err? <==> old(trace) == []
      ensures trace == if r.Ok? then Front(old(trace)) else old(trace)
    {
      if trace == [] {
        return Err(TraceIsEmpty);
      }
      trace := trace[..|trace| - 1];
      r := Ok(());
    }

    method AddRequestToTrace(request: Int32) returns (r: Result<(), Error>)
      requires trace != [] ==> HasModule(trace)
      modifies this
      ensures r.Err? <==> old(trace) == []
      ensures trace == if r.Ok? then WithRequest(old(trace), ToReqNum(request)) else old(trace)
    {
      if trace == [] {
        return Err(TraceIsEmpty);
      }
      UpdateLast(LastModule(trace).reqs + [ToReqNum(request)]);
      r := Ok(());
    }

    method RemoveLastRequestFromTrace() returns (r: Result<(), Error>)
      requires trace != [] ==> HasRequest(trace)
      modifies this
      ensures r.Err? <==> old(trace) == []
      ensures trace == if r.Ok? then SetRequests(old(trace), Front(LastModule(old(trace)).reqs)) else old(trace)
    {
      if trace == [] {
        return Err(TraceIsEmpty);
      }
      UpdateLast(Front(LastModule(trace).reqs));
      r := Ok(());
    }

    method UpdateLast(reqs: seq<ReqNum>)
      requires HasModule(trace)
      modifies this
      ensures trace == SetRequests(old(trace), reqs)
    {
      var node := trace[|trace| - 1];
      var k := |node.modules| - 1;
      trace := trace[|trace| - 1 := node.(modules := node.modules[k := node.modules[k].(reqs := reqs)])];
      assert node.modules[k := node.modules[k].(reqs := reqs)] ==
             Front(node.modules) + [TraceComponent(node.modules[k].moduleID, node.modules[k].gateID, reqs)];
    }

    method GetLastGateId() returns (r: Result<Int32, Error>)
      requires trace != [] ==> HasModule(trace)
      ensures r == if trace == [] then Err(TraceIsEmpty) else Ok(LastModule(trace).gateID)
    {
      r := if trace == [] then Err(TraceIsEmpty) else Ok(LastModule(trace).gateID);
    }

    method GetCurrentRequest() returns (r: Result<Int32, Error>)
      requires trace != [] ==> HasRequest(trace)
      ensures r == if trace == [] then Err(TraceIsEmpty) else Ok(ToInt32(Last(LastModule(trace).reqs)))
    {
      r := if trace == [] then Err(TraceIsEmpty) else Ok(ToInt32(Last(LastModule(trace).reqs)));
    }

    method TraceToString() returns (line: string)
      ensures line == Print(trace)
    {
      line := "";
      for i := 0 to |trace|
        invariant line == Print(trace[..i])
      {
        PrintNext(trace, i, line);
        if i != 0 {
          line := line + "|";
        }
        var modules := PrintModules(trace[i].modules);
        line := line + (trace[i].host + "@" + modules);
      }
      assert trace[..|trace|] == trace;
    }

    method PrintModules(modules: seq<TraceComponent>) returns (text: string)
      ensures text == ModulesText(modules)
    {
      text := "";
      for j := 0 to |modules|
        invariant text == ModulesText(modules[..j])
      {
        PrintModulesNext(modules, j, text);
        if j != 0 {
          text := text + "/";
        }
        var component := PrintModule(modules[j]);
        text := text + component;
      }
      assert modules[..|modules|] == modules;
    }

    method PrintModule(m: TraceComponent) returns (text: string)
      ensures text == ModuleText(m)
    {
      var requests := PrintRequests(m.reqs);
      text := Signed(m.moduleID) + "," + Signed(m.gateID) + ":" + requests;
    }

    method PrintRequests(reqs: seq<ReqNum>) returns (text: string)
      ensures text == RequestsText(reqs)
    {
      text := "";
      ghost var texts := RequestTexts(reqs);
      for k := 0 to |reqs|
        invariant text == Join(texts[..k], '.')
      {
        JoinStep(texts, k, text, '.');
        if k != 0 {
          text := text + ".";
        }
        text := text + Decimal(reqs[k]);
      }
      assert texts[..|reqs|] == texts;
    }

    method FitWithParent(parent: IcancloudMessage) returns (fit: bool)
      ensures fit <==> Fits(Print(trace), Print(parent.trace))
    {
      fit := false;
      var childTrace := TraceToString();
      var parentTrace := parent.TraceToString();
      var dot := FindLast(childTrace, '.');
      var twoDots := FindLast(childTrace, ':');
      FitsByPositions(childTrace, parentTrace);
      if dot != -1 && twoDots != -1 {
        if dot > twoDots {
          childTrace := childTrace[..dot];
          if childTrace == parentTrace {
            fit := true;
          }
        }
      }
    }

    /** Copies one node with its modules, as dup does for every node. */
    method AddNodeTrace(host: string, nodeTrace: seq<TraceComponent>)
      modifies this
      ensures trace == old(trace) + [NodeTrace(host, nodeTrace)]
    {
      var copy: seq<TraceComponent> := [];
      for i := 0 to |nodeTrace|
        invariant copy == nodeTrace[..i]
      {
        var reqs: seq<ReqNum> := [];
        for k := 0 to |nodeTrace[i].reqs|
          invariant reqs == nodeTrace[i].reqs[..k]
        {
          reqs := reqs + [nodeTrace[i].reqs[k]];
        }
        assert nodeTrace[i].reqs[..|nodeTrace[i].reqs|] == nodeTrace[i].reqs;
        copy := copy + [TraceComponent(nodeTrace[i].moduleID, nodeTrace[i].gateID, reqs)];
      }
      assert nodeTrace[..|nodeTrace|] == nodeTrace;
      trace := trace + [NodeTrace(host, copy)];
    }

    /** The trace of a duplicate. */
    method Dup() returns (copy: IcancloudMessage)
      ensures fresh(copy) && copy.trace == trace
    {
      copy := new IcancloudMessage();
      for i := 0 to |trace|
        invariant copy.trace == trace[..i] && fresh(copy)
      {
        copy.AddNodeTrace(trace[i].host, trace[i].modules);
      }
    }
  }

  lemma ShorterTail(s: string, i: nat, j: nat, c: char)
    requires i <= j <= |s| && c !in s[i..]
    ensures c !in s[j..]
  {
    assert s[j..] == s[i..][j - i..];
  }

  lemma CutAt(s: string, k: nat)
    requires k < |s|
    ensures s == s[..k] + [s[k]] + s[k + 1..]
  {}

  lemma CutFits(child: string, dot: nat, twoDots: nat)
    requires dot == FindLast(child, '.') && twoDots == FindLast(child, ':') && twoDots < dot
    ensures Fits(child, child[..dot])
  {
    var (parent, d) := (child[..dot], child[dot + 1..]);
    ShorterTail(child, twoDots + 1, dot + 1, ':');
    CutAt(child, dot);
    assert Extends(child, parent, d);
    assert parent[twoDots] == ':';
  }

  lemma FitIsCut(parent: string, d: string)
    requires ':' in parent && '.' !in d && ':' !in d
    ensures var child := parent + "." + d;
            FindLast(child, '.') == |parent| && 0 <= FindLast(child, ':') < |parent| && child[..|parent|] == parent
  {
    FindLastConcat(parent + ".", d, '.');
    FindLastConcat(parent + ".", d, ':');
    FindLastConcat(parent, ".", ':');
  }

  /** Cutting at the last dot behind the last colon says the same as Fits. */
  lemma FitsByPositions(child: string, parent: string)
    ensures var (dot, twoDots) := (FindLast(child, '.'), FindLast(child, ':'));
            Fits(child, parent) <==> dot > twoDots >= 0 && child[..dot] == parent
  {
    var (dot, twoDots) := (FindLast(child, '.'), FindLast(child, ':'));
    if dot > twoDots >= 0 {
      CutFits(child, dot, twoDots);
    }
    if Fits(child, parent) {
      var d :| Extends(child, parent, d);
      FitIsCut(parent, d);
    }
  }
}
