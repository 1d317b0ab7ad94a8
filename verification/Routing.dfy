/** Routing by the trace: every module notes the gate that leads back, and responses follow the notes. */
module Routing {
  import opened Trace
  import opened TraceFit
  import opened Wrappers

  const NO_GATE_ID: Int32 := -5

  /** What the module does next: it processes a request from its queue, if `next` is one, or a response. */
  datatype Action = ProcessRequest(next: Option<IcancloudMessage>) | ProcessResponse

  /** A message given to the simulator to send, the gate it leaves by and the trace it has then. */
  datatype Sending = Sending(message: IcancloudMessage, gate: Int32, trace: seq<NodeTrace>)

  /** Unless a request is being processed, the oldest of the queue is taken. */
  ghost predicate Takes(isPending: bool, queue: seq<IcancloudMessage>, next: Option<IcancloudMessage>,
                        rest: seq<IcancloudMessage>)
  {
    if isPending || queue == [] then next.None? && rest == queue
    else next.Some? && queue == [next.value] + rest
  }

  /** The part of a simulation module that all modules share. `outGate` is the gate paired with the one
      a message came in by, if it came in by one. */
  class IcancloudBase {
    const id: Int32
    const hostName: string
    var currentRequest: ReqNum
    var queue: seq<IcancloudMessage>
    var sent: seq<Sending>

    constructor (id: Int32, hostName: string)
      ensures this.id == id && this.hostName == hostName && currentRequest == 0 && queue == [] && sent == []
    {
      this.id := id;
      this.hostName := hostName;
      currentRequest := 0;
      queue, sent := [], [];
    }

    /** The entry of a module holds the gate that leads back: the one paired with the arrival gate. */
    method UpdateMessageTrace(sm: IcancloudMessage, outGate: Option<Int32>) returns (r: Result<(), Error>)
      modifies this, sm
      ensures queue == old(queue) && sent == old(sent) && (r.Err? <==> old(sm.trace) == [])
      ensures sm.trace == if r.Ok? then WithModule(old(sm.trace), id, GateOf(outGate), old(currentRequest))
                          else old(sm.trace)
      ensures r.Ok? ==> Popped(sm.trace) == old(sm.trace)
      ensures r.Ok? ==> LastModule(sm.trace).gateID == if outGate.Some? then outGate.value else -5
      ensures currentRequest == if r.Ok? then (old(currentRequest) + 1) % TWO_64 else old(currentRequest)
    {
      ghost var (before, number) := (sm.trace, currentRequest);
      var gateId := if outGate.None? then NO_GATE_ID else outGate.value;
      r := sm.AddModuleToTrace(id, gateId, currentRequest);
      if r.Ok? {
        AnswerGoesBack(before, id, outGate, number);
        currentRequest := (currentRequest + 1) % TWO_64;
      }
    }

    /** A request is entered in its trace, numbered and queued, and the next of the queue is processed; a
        response goes to the module's own handler. */
    method HandleMessage(sm: IcancloudMessage, isResponse: bool, outGate: Option<Int32>, isPending: bool)
      returns (r: Result<Action, Error>)
      modifies this, sm
      ensures sent == old(sent)
      ensures isResponse ==> r == Ok(ProcessResponse) && sm.trace == old(sm.trace)
      ensures !isResponse && old(sm.trace) == [] ==> r == Err(TraceIsEmpty) && sm.trace == []
      ensures !isResponse && old(sm.trace) != [] ==>
                && r.Ok? && r.value.ProcessRequest? && Takes(isPending, old(queue) + [sm], r.value.next, queue)
                && sm.trace == WithModule(old(sm.trace), id, GateOf(outGate), old(currentRequest))
                && Popped(sm.trace) == old(sm.trace)
                && LastModule(sm.trace).gateID == (if outGate.Some? then outGate.value else -5)
                && currentRequest == (old(currentRequest) + 1) % TWO_64
      ensures isResponse || r.Err? ==> queue == old(queue) && currentRequest == old(currentRequest)
    {
      if !isResponse {
        var updated := UpdateMessageTrace(sm, outGate);
        if updated.Err? {
          assert updated.error == TraceIsEmpty;
          return Err(updated.error);
        }
        queue := queue + [sm];
        var next := ProcessCurrentRequestMessage(isPending);
        r := Ok(ProcessRequest(next));
      } else {
        r := Ok(ProcessResponse);
      }
    }

    /** Takes the next request from the queue, unless one is being processed. */
    method ProcessCurrentRequestMessage(isPending: bool) returns (next: Option<IcancloudMessage>)
      modifies this`queue
      ensures Takes(isPending, old(queue), next, queue)
    {
      next := None;
      if !isPending {
        if queue != [] {
          next := Some(queue[0]);
          queue := queue[1..];
        }
      }
    }

    /** A message without a trace starts one with the node and the module it leaves; then it is sent and
        the next request is processed. */
    method SendRequestMessage(sm: IcancloudMessage, gate: Int32, outGate: Option<Int32>, isPending: bool)
      returns (next: Option<IcancloudMessage>)
      modifies this, sm
      ensures Takes(isPending, old(queue), next, queue)
      ensures var gate := if outGate.Some? then outGate.value else -5;
              sm.trace == if old(sm.trace) == [] then Origin(hostName, id, gate, old(currentRequest)) else old(sm.trace)
      ensures currentRequest == if old(sm.trace) == [] then (old(currentRequest) + 1) % TWO_64 else old(currentRequest)
      ensures sent == old(sent) + [Sending(sm, gate, sm.trace)]
    {
      if sm.trace == [] {
        sm.AddNodeToTrace(hostName);
        OriginIsFirstEntry(hostName, id, GateOf(outGate), currentRequest);
        var r := UpdateMessageTrace(sm, outGate);
      }
      sent := sent + [Sending(sm, gate, sm.trace)];
      next := ProcessCurrentRequestMessage(isPending);
    }

    /** A response leaves by the last gate of its trace, without the entry of this module; then the next
        request is processed. */
    method SendResponseMessage(sm: IcancloudMessage, isPending: bool)
      returns (r: Result<Option<IcancloudMessage>, Error>)
      requires sm.trace != [] ==> HasModule(sm.trace)
      modifies this, sm
      ensures currentRequest == old(currentRequest) && (r.Err? <==> old(sm.trace) == [])
      ensures r.Err? ==> r == Err(TraceIsEmpty) && sm.trace == [] && queue == old(queue) && sent == old(sent)
      ensures r.Ok? ==>
                && sm.trace == Popped(old(sm.trace)) && Takes(isPending, old(queue), r.value, queue)
                && sent == old(sent) + [Sending(sm, LastModule(old(sm.trace)).gateID, sm.trace)]
    {
      var gate := sm.GetLastGateId();
      if gate.Err? {
        return Err(gate.error);
      }
      var removed := sm.RemoveLastModuleFromTrace();
      sent := sent + [Sending(sm, gate.value, sm.trace)];
      var next := ProcessCurrentRequestMessage(isPending);
      r := Ok(next);
    }
  }

  function GateOf(outGate: Option<Int32>): Int32 { if outGate.None? then NO_GATE_ID else outGate.value }

  function Popped(t: seq<NodeTrace>): seq<NodeTrace>
    requires HasModule(t)
  {
    SetModules(t, Front(Last(t).modules))
  }

  /** A request that came by a gate is answered by the gate paired with it, and with the trace it came
      with. */
  lemma AnswerGoesBack(t: seq<NodeTrace>, id: Int32, outGate: Option<Int32>, req: ReqNum)
    requires t != []
    ensures var u := WithModule(t, id, GateOf(outGate), req);
            && HasModule(u) && Popped(u) == t
            && LastModule(u) == TraceComponent(id, if outGate.Some? then outGate.value else -5, [req])
  {
    RecordsAreReadBack(t, id, GateOf(outGate), req, 0);
  }

  /** The trace of a message that has been sent by its originator. */
  function Origin(host: string, id: Int32, gate: Int32, req: ReqNum): seq<NodeTrace> {
    [NodeTrace(host, [TraceComponent(id, gate, [req])])]
  }

  lemma OriginIsFirstEntry(host: string, id: Int32, gate: Int32, req: ReqNum)
    ensures WithModule(WithNode([], host), id, gate, req) == Origin(host, id, gate, req)
  {
    var t := WithNode([], host);
    assert Last(t) == NodeTrace(host, []) && Front(t) == [];
    assert Last(t).modules + [TraceComponent(id, gate, [req])] == [TraceComponent(id, gate, [req])];
  }

  // ---------------------------------------------------------------- there and back

  /** What happens to a request at a module on its way: it arrives by a gate, with which `outGate` is
      paired, is entered, and is passed on, possibly as a sub-request with more numbers. */
  datatype Station = Station(id: Int32, outGate: Option<Int32>, req: ReqNum, added: seq<ReqNum>)

  /** The numbers are added to the trace one after the other. */
  function Numbered(t: seq<NodeTrace>, added: seq<ReqNum>): (r: seq<NodeTrace>)
    requires HasModule(t)
    ensures HasModule(r)
  {
    if added == [] then t else WithRequest(Numbered(t, Front(added)), Last(added))
  }

  function Forwarded(t: seq<NodeTrace>, s: Station): (r: seq<NodeTrace>)
    requires t != []
    ensures HasModule(r)
  {
    Numbered(WithModule(t, s.id, GateOf(s.outGate), s.req), s.added)
  }

  function Path(start: seq<NodeTrace>, way: seq<Station>): (r: seq<NodeTrace>)
    requires start != []
    ensures r != [] && (way != [] ==> HasModule(r))
  {
    if way == [] then start else Forwarded(Path(start, way[..|way| - 1]), way[|way| - 1])
  }

  /** The module at position k of the way; the originator is at position -1. */
  function At(origin: Int32, way: seq<Station>, k: int): Int32
    requires -1 <= k < |way|
  {
    if k == -1 then origin else way[k].id
  }

  /** At every station the gate paired with the one the request came by leads to the module it came from. */
  ghost predicate Wired(leads: (Int32, Int32) -> Int32, origin: Int32, way: seq<Station>) {
    forall k :: 0 <= k < |way| ==>
      way[k].outGate.Some? && leads(way[k].id, way[k].outGate.value) == At(origin, way, k - 1)
  }

  /** A visit: the module a response reaches, and the trace it has there. */
  datatype Visit = Visit(id: Int32, trace: seq<NodeTrace>)

  /** The next n visits of a response that leaves module `at` with trace t. */
  function Visits(leads: (Int32, Int32) -> Int32, at: Int32, t: seq<NodeTrace>, n: nat): seq<Visit>
    decreases n
  {
    if n == 0 || !HasModule(t) then []
    else
      var (next, rest) := (leads(at, LastModule(t).gateID), Popped(t));
      [Visit(next, rest)] + Visits(leads, next, rest, n - 1)
  }

  /** Added numbers go to the last module and change nothing else. */
  lemma {:induction false} NumberedIs(t: seq<NodeTrace>, m: TraceComponent, added: seq<ReqNum>)
    requires t != []
    ensures var modules := Last(t).modules;
            Numbered(SetModules(t, modules + [m]), added) ==
            SetModules(t, modules + [TraceComponent(m.moduleID, m.gateID, m.reqs + added)])
  {
    var modules := Last(t).modules;
    if added == [] {
      assert m.reqs + added == m.reqs;
    } else {
      NumberedIs(t, m, Front(added));
      OneMoreNumber(t, modules, TraceComponent(m.moduleID, m.gateID, m.reqs + Front(added)), Last(added));
      assert m.reqs + Front(added) + [Last(added)] == m.reqs + added;
    }
  }

  lemma OneMoreNumber(t: seq<NodeTrace>, modules: seq<TraceComponent>, m: TraceComponent, req: ReqNum)
    requires t != []
    ensures WithRequest(SetModules(t, modules + [m]), req) ==
            SetModules(t, modules + [TraceComponent(m.moduleID, m.gateID, m.reqs + [req])])
  {
    assert Front(modules + [m]) == modules;
    assert Front(SetModules(t, modules + [m])) == Front(t);
  }

  lemma PoppedForwarded(t: seq<NodeTrace>, s: Station)
    requires t != []
    ensures LastModule(Forwarded(t, s)) ==
            TraceComponent(s.id, if s.outGate.Some? then s.outGate.value else -5, [s.req] + s.added)
    ensures Popped(Forwarded(t, s)) == t
  {
    var m := TraceComponent(s.id, GateOf(s.outGate), [s.req]);
    NumberedIs(t, m, s.added);
    var modules := Last(t).modules;
    var last := TraceComponent(s.id, GateOf(s.outGate), [s.req] + s.added);
    assert Forwarded(t, s) == SetModules(t, modules + [last]);
    assert Front(modules + [last]) == modules;
    assert Front(Forwarded(t, s)) == Front(t);
    assert t == Front(t) + [Last(t)];
  }

  /** The way back: the modules in reverse order, each with the trace it had passed on. */
  function WayBack(origin: Int32, start: seq<NodeTrace>, way: seq<Station>): seq<Visit>
    requires start != []
  {
    seq(|way|, j requires 0 <= j < |way| => Visit(At(origin, way, |way| - 2 - j), Path(start, way[..|way| - 1 - j])))
  }

  lemma WayBackStep(origin: Int32, start: seq<NodeTrace>, way: seq<Station>)
    requires start != [] && way != []
    ensures var before := way[..|way| - 1];
            WayBack(origin, start, way) ==
            [Visit(At(origin, before, |before| - 1), Path(start, before))] + WayBack(origin, start, before)
  {
    var before := way[..|way| - 1];
    var (whole, rest) := (WayBack(origin, start, way), WayBack(origin, start, before));
    FirstVisit(origin, start, way);
    forall j | 0 <= j < |rest| ensures whole[j + 1] == rest[j] {
      LaterVisit(origin, start, way, j);
    }
  }

  lemma FirstVisit(origin: Int32, start: seq<NodeTrace>, way: seq<Station>)
    requires start != [] && way != []
    ensures var before := way[..|way| - 1];
            WayBack(origin, start, way)[0] == Visit(At(origin, before, |before| - 1), Path(start, before))
  {
    var before := way[..|way| - 1];
    assert way[..|way| - 1 - 0] == before;
    assert At(origin, before, |before| - 1) == At(origin, way, |way| - 2);
    assert WayBack(origin, start, way)[0] == Visit(At(origin, way, |way| - 2 - 0), Path(start, way[..|way| - 1 - 0]));
  }

  lemma LaterVisit(origin: Int32, start: seq<NodeTrace>, way: seq<Station>, j: nat)
    requires start != [] && j + 1 < |way|
    ensures WayBack(origin, start, way)[j + 1] == WayBack(origin, start, way[..|way| - 1])[j]
  {
    var before := way[..|way| - 1];
    assert before[..|before| - 1 - j] == way[..|way| - 1 - (j + 1)];
    assert At(origin, before, |before| - 2 - j) == At(origin, way, |way| - 2 - (j + 1));
  }

  /** Responses retrace requests: the response leaves every module by the gate noted when the request
      came, visits the way in reverse order, is at each station exactly what the station had passed on,
      and reaches the originator with what the originator had sent. */
  lemma {:induction false} ResponsesRetrace(leads: (Int32, Int32) -> Int32, origin: Int32, start: seq<NodeTrace>,
                                            way: seq<Station>)
    requires start != [] && Wired(leads, origin, way)
    ensures Visits(leads, At(origin, way, |way| - 1), Path(start, way), |way|) == WayBack(origin, start, way)
  {
    if way != [] {
      var (before, s) := (way[..|way| - 1], way[|way| - 1]);
      assert Wired(leads, origin, before) && At(origin, before, |before| - 1) == At(origin, way, |way| - 2);
      ResponsesRetrace(leads, origin, start, before);
      PoppedForwarded(Path(start, before), s);
      WayBackStep(origin, start, way);
    }
  }

  /** The last visit of a request sent by SendRequestMessage is the originator, and nothing but the
      originator's own entry is left in the trace. */
  lemma OriginatorIsLast(leads: (Int32, Int32) -> Int32, origin: Int32, host: string, gate: Int32, req: ReqNum,
                         way: seq<Station>)
    requires Wired(leads, origin, way) && way != []
    ensures var visits := Visits(leads, At(origin, way, |way| - 1), Path(Origin(host, origin, gate, req), way), |way|);
            |visits| == |way| && visits[|way| - 1] == Visit(origin, Origin(host, origin, gate, req))
  {
    var start := Origin(host, origin, gate, req);
    ResponsesRetrace(leads, origin, start, way);
    assert way[..|way| - 1 - (|way| - 1)] == [];
    assert WayBack(origin, start, way)[|way| - 1] == Visit(At(origin, way, -1), Path(start, []));
  }

  /** A sub-request that a module has numbered i comes back with the number i, fits the parent that the
      module kept, and fits no longer once its number is gone. */
  lemma SubRequestComesBack(t: seq<NodeTrace>, s: Station, i: Int32)
    requires t != [] && s.added == [ToReqNum(i)]
    ensures var (parent, child) := (WithModule(t, s.id, GateOf(s.outGate), s.req), Forwarded(t, s));
            && HasRequest(child) && ToInt32(Last(LastModule(child).reqs)) == i
            && Fits(Print(child), Print(parent))
            && SetRequests(child, Front(LastModule(child).reqs)) == parent
            && !Fits(Print(parent), Print(parent))
  {
    var (parent, added) := (WithModule(t, s.id, GateOf(s.outGate), s.req), s.added);
    assert Front(added) == [] && Last(added) == ToReqNum(i);
    assert Numbered(parent, []) == parent;
    assert Forwarded(t, s) == WithRequest(parent, ToReqNum(i));
    RecordsAreReadBack(t, s.id, GateOf(s.outGate), s.req, i);
    SubRequestFits(parent, ToReqNum(i));
  }
}
