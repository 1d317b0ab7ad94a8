/** The table of split requests, with the objects it updates in place. */
module SplittingMessages {
  import opened Arrivals
  import opened Wrappers

  const NOT_FOUND := -4

  /** What a call with outcome `r` did to the table, compared with the event it stands for. */
  ghost predicate Did(before: seq<Request>, e: Event, after: seq<Request>, r: Result<(), Error>) {
    if r.Ok? then Step(before, e) == Ok(after) else Step(before, e) == Err(r.error) && after == before
  }

  class IcancloudRequest {
    const parentRequest: nat
    var subRequests: seq<Option<Message>>
    var arrivedSubRequests: nat

    ghost function Row(): Request
      reads this
    {
      Request(parentRequest, subRequests, arrivedSubRequests)
    }

    constructor (newParent: nat, numSubReq: nat)
      ensures Row() == Empty(newParent, numSubReq)
    {
      parentRequest := newParent;
      arrivedSubRequests := 0;
      subRequests := [];
      new;
      for i := 0 to numSubReq
        invariant Row() == Empty(newParent, i)
      {
        subRequests := subRequests + [None];
      }
    }

    method SetSubRequest(sub: Message, index: int) returns (r: Result<(), Error>)
      modifies this
      ensures var did := OnRow(old(Row()), Link(parentRequest, sub, index));
              if r.Ok? then did == Ok(Row()) else did == Err(r.error) && Row() == old(Row())
    {
      if 0 <= index < |subRequests| {
        subRequests := subRequests[index := Some(sub)];
        r := Ok(());
      } else {
        r := Err(IndexOutOfBounds);
      }
    }

    method PopSubRequest(index: int) returns (r: Result<Option<Message>, Error>)
      modifies this
      ensures var did := OnRow(old(Row()), Pop(parentRequest, index));
              if r.Ok? then did == Ok(Row()) else did == Err(r.error) && Row() == old(Row())
      ensures r.Ok? ==> 0 <= index < |old(subRequests)| && r.value == old(subRequests)[index]
      ensures r.Ok? ==> subRequests == old(subRequests)[index := None] && arrivedSubRequests == old(arrivedSubRequests)
    {
      if 0 <= index < |subRequests| {
        r := Ok(subRequests[index]);
        subRequests := subRequests[index := None];
      } else {
        r := Err(IndexOutOfBounds);
      }
    }

    /** The first linked sub-request that is not a response; it stays linked. When there are only
        responses the last of them is handed out again. */
    method PopNextSubRequest() returns (next: Option<Message>)
      ensures next.None? <==> forall j :: 0 <= j < |subRequests| ==> subRequests[j].None?
      ensures next.Some? && !next.value.isResponse ==>
                exists i :: 0 <= i < |subRequests| && next == subRequests[i] &&
                  forall j :: 0 <= j < i ==> subRequests[j].None? || subRequests[j].value.isResponse
      ensures next.Some? && next.value.isResponse ==>
                && (forall j :: 0 <= j < |subRequests| ==> subRequests[j].None? || subRequests[j].value.isResponse)
                && exists i :: 0 <= i < |subRequests| && next == subRequests[i] &&
                     forall j :: i < j < |subRequests| ==> subRequests[j].None?
    {
      next := None;
      var (found, i) := (false, 0);
      ghost var last := 0;
      while !found && i < |subRequests|
        invariant 0 <= i <= |subRequests|
        invariant forall j :: 0 <= j < i ==> subRequests[j].None? || subRequests[j].value.isResponse
        invariant found ==> i < |subRequests| && next == subRequests[i] && next.Some? && !next.value.isResponse
        invariant !found && next.None? ==> forall j :: 0 <= j < i ==> subRequests[j].None?
        invariant !found && next.Some? ==>
                    next.value.isResponse && 0 <= last < i && next == subRequests[last] &&
                    forall j :: last < j < i ==> subRequests[j].None?
        decreases |subRequests| - i, !found
      {
        if subRequests[i].Some? {
          next, last := subRequests[i], i;
          if !next.value.isResponse {
            found := true;
          }
        }
        if !found {
          i := i + 1;
        }
      }
    }

    method ArrivesSubRequest(sub: Message, index: int) returns (r: Result<(), Error>)
      modifies this
      ensures var did := Arrived(old(Row()), sub, index);
              if r.Ok? then did == Ok(Row()) else did == Err(r.error) && Row() == old(Row())
    {
      if 0 <= index < |subRequests| {
        if subRequests[index].None? {
          subRequests := subRequests[index := Some(sub)];
        } else {
          subRequests := subRequests[index := None];
        }
        arrivedSubRequests := arrivedSubRequests + 1;
        r := Ok(());
      } else {
        r := Err(IndexOutOfBounds);
      }
    }
  }

  class SplittingMessageSystem {
    var requestVector: seq<IcancloudRequest>

    ghost predicate Valid()
      reads this
    {
      forall i, j :: 0 <= i < j < |requestVector| ==> requestVector[i] != requestVector[j]
    }

    ghost function Table(): (t: seq<Request>)
      reads this, requestVector
      ensures |t| == |requestVector|
    {
      seq(|requestVector|, i requires 0 <= i < |requestVector| reads this, requestVector => requestVector[i].Row())
    }

    constructor ()
      ensures Valid() && Table() == []
    {
      requestVector := [];
    }

    method SearchRequest(request: nat) returns (index: int)
      ensures var i := Find(Table(), request); index == if i < |Table()| then i else NOT_FOUND
    {
      var found := false;
      index := 0;
      var it := 0;
      while it < |requestVector| && !found
        invariant 0 <= it <= |requestVector|
        invariant index == if found then it - 1 else it
        invariant found ==> 0 <= index && requestVector[index].parentRequest == request
        invariant forall j :: 0 <= j < index ==> requestVector[j].parentRequest != request
      {
        if requestVector[it].parentRequest == request {
          found := true;
        } else {
          index := index + 1;
        }
        it := it + 1;
      }
      if found {
        FindIsFirst(Table(), request, index);
      } else {
        index := NOT_FOUND;
      }
    }

    method GetNumberOfSubRequest(request: nat) returns (r: Result<nat, Error>)
      ensures var i := Find(Table(), request);
              r == if i < |Table()| then Ok(|Table()[i].slots|) else Err(RequestNotFound)
    {
      var index := SearchRequest(request);
      r := if index != NOT_FOUND then Ok(|requestVector[index].subRequests|) else Err(RequestNotFound);
    }

    method ArrivesAllSubRequest(request: nat) returns (r: Result<bool, Error>)
      ensures r == AllArrived(Table(), request)
    {
      var index := SearchRequest(request);
      if index != NOT_FOUND {
        r := Ok(requestVector[index].arrivedSubRequests == |requestVector[index].subRequests|);
      } else {
        r := Err(RequestNotFound);
      }
    }

    method AddRequest(request: nat, numSubRequests: nat)
      requires Valid()
      modifies this
      ensures Valid() && Did(old(Table()), Add(request, numSubRequests), Table(), Ok(()))
      ensures |requestVector| > 0 && requestVector[..|requestVector| - 1] == old(requestVector)
      ensures fresh(requestVector[|requestVector| - 1])
    {
      var newRequest := new IcancloudRequest(request, numSubRequests);
      requestVector := requestVector + [newRequest];
      assert Table() == old(Table()) + [Empty(request, numSubRequests)];
    }

    method RemoveRequest(request: nat) returns (r: Result<(), Error>)
      requires Valid()
      modifies this
      ensures Valid() && Did(old(Table()), Remove(request), Table(), r)
      ensures forall x :: x in requestVector ==> x in old(requestVector)
    {
      var index := SearchRequest(request);
      if index != NOT_FOUND {
        requestVector := requestVector[..index] + requestVector[index + 1..];
        assert Table() == old(Table())[..index] + old(Table())[index + 1..];
        r := Ok(());
      } else {
        r := Err(RequestNotFound);
      }
    }

    method SetSubRequest(request: nat, sub: Message, subReqIndex: int) returns (r: Result<(), Error>)
      requires Valid()
      modifies requestVector
      ensures Valid() && Did(old(Table()), Link(request, sub, subReqIndex), Table(), r)
    {
      var index := SearchRequest(request);
      if index != NOT_FOUND {
        r := requestVector[index].SetSubRequest(sub, subReqIndex);
        assert Table() == old(Table())[index := requestVector[index].Row()];
      } else {
        r := Err(RequestNotFound);
      }
    }

    method PopSubRequest(parentRequest: nat, subRequestIndex: int) returns (r: Result<Option<Message>, Error>)
      requires Valid()
      modifies requestVector
      ensures Valid() && Did(old(Table()), Pop(parentRequest, subRequestIndex), Table(),
                           if r.Ok? then Ok(()) else Err(r.error))
      ensures r.Ok? ==> var i := old(Find(Table(), parentRequest));
                r.value == if i < |old(Table())| then old(Table())[i].slots[subRequestIndex] else None
    {
      var index := SearchRequest(parentRequest);
      if index != NOT_FOUND {
        r := requestVector[index].PopSubRequest(subRequestIndex);
        assert Table() == old(Table())[index := requestVector[index].Row()];
      } else {
        r := Ok(None);
      }
    }

    method ArrivesSubRequest(sub: Message, parentRequest: nat) returns (r: Result<(), Error>)
      requires Valid()
      modifies requestVector
      ensures Valid() && Did(old(Table()), Arrive(parentRequest, sub), Table(), r)
    {
      var indexParent := SearchRequest(parentRequest);
      if indexParent != NOT_FOUND {
        r := requestVector[indexParent].ArrivesSubRequest(sub, sub.currentRequest);
        assert Table() == old(Table())[indexParent := requestVector[indexParent].Row()];
      } else {
        r := Err(RequestNotFound);
      }
    }

    /** The scan of the memory splitter over the slots that are not read-ahead. */
    method ArrivesRequiredBlocks(request: nat, extraBlocks: nat) returns (allArrived: bool)
      ensures allArrived <==> RequiredArrived(Table(), request, extraBlocks)
    {
      var parentIndex := SearchRequest(request);
      allArrived := true;
      var subIndex := 0;
      if parentIndex != NOT_FOUND {
        var slots := requestVector[parentIndex].subRequests;
        while subIndex < |slots| - extraBlocks && allArrived
          invariant 0 <= subIndex <= |slots|
          invariant forall j :: 0 <= j < subIndex ==> slots[j].Some?
          invariant !allArrived ==> subIndex < |slots| - extraBlocks && slots[subIndex].None?
          decreases |slots| - subIndex, allArrived
        {
          if slots[subIndex].None? {
            allArrived := false;
          } else {
            subIndex := subIndex + 1;
          }
        }
      } else {
        allArrived := false;
      }
    }


    /** SetSubRequest, as the n-th of a series of events. */
    method SetNext(request: nat, sub: Message, index: int,
                   ghost start: seq<Request>, ghost es: seq<Event>, ghost n: nat)
      returns (r: Result<(), Error>)
      requires Valid() && n < |es| && es[n] == Link(request, sub, index) && Execute(start, es[..n]) == Ok(Table())
      modifies requestVector
      ensures Valid()
      ensures r.Ok? ==> Execute(start, es[..n + 1]) == Ok(Table())
      ensures r.Err? ==> Execute(start, es) == Err(r.error) && IsPartOf(Table(), start, es)
    {
      ghost var before := Table();
      r := SetSubRequest(request, sub, index);
      ExecuteNext(start, es, n);
      if r.Err? {
        FailedAfter(start, es, n, before);
      }
    }

    /** How a splitter enters its sub-requests: a new row, then one slot after the other. The first link
        that fails ends it, with what was done before in the table. */
    method Register(request: nat, subs: seq<Message>) returns (r: Result<(), Error>)
      requires Valid()
      modifies this, requestVector
      ensures Valid()
      ensures r.Ok? ==> Execute(old(Table()), Entries(request, subs)) == Ok(Table())
      ensures r.Err? ==> Execute(old(Table()), Entries(request, subs)) == Err(r.error)
      ensures r.Err? ==> IsPartOf(Table(), old(Table()), Entries(request, subs))
    {
      ghost var (start, es) := (Table(), Entries(request, subs));
      assert es[..0] == [];
      AddRequest(request, |subs|);
      ghost var objects := requestVector;
      ExecuteNext(start, es, 0);
      for i := 0 to |subs|
        invariant Valid() && requestVector == objects
        invariant forall o :: o in objects ==> o in old(requestVector) || fresh(o)
        invariant Execute(start, es[..i + 1]) == Ok(Table())
      {
        r := SetNext(request, subs[i], i, start, es, i + 1);
        if r.Err? {
          return;
        }
      }
      assert es[..|subs| + 1] == es;
      r := Ok(());
    }
  }

  /** A new row for the request, and a link for every sub-request. */
  function Entries(request: nat, subs: seq<Message>): (es: seq<Event>)
    ensures |es| == |subs| + 1
  {
    [Add(request, |subs|)] + seq(|subs|, i requires 0 <= i < |subs| => Link(request, subs[i], i))
  }

  /** The table is what a part of the events makes of the table before. */
  ghost predicate IsPartOf(t: seq<Request>, before: seq<Request>, es: seq<Event>) {
    exists n :: 0 <= n <= |es| && Execute(before, es[..n]) == Ok(t)
  }

  /** A row whose first i slots are linked with the sub-requests. */
  function Linked(request: nat, subs: seq<Message>, i: nat): Request
    requires i <= |subs|
  {
    Request(request, seq(|subs|, k requires 0 <= k < |subs| => if k < i then Some(subs[k]) else None), 0)
  }

  lemma LinkNext(t: seq<Request>, request: nat, subs: seq<Message>, i: nat)
    requires Find(t, request) == |t| && i < |subs|
    ensures Step(t + [Linked(request, subs, i)], Link(request, subs[i], i)) == Ok(t + [Linked(request, subs, i + 1)])
  {
    var row := Linked(request, subs, i);
    FindIsFirst(t + [row], request, |t|);
    assert row.slots[i := Some(subs[i])] == Linked(request, subs, i + 1).slots;
    assert (t + [row])[|t| := Linked(request, subs, i + 1)] == t + [Linked(request, subs, i + 1)];
  }

  /** The table at the event that fails. */
  lemma FailedAfter(before: seq<Request>, es: seq<Event>, n: nat, t: seq<Request>)
    requires n < |es| && Execute(before, es[..n]) == Ok(t) && Step(t, es[n]).Err?
    ensures IsPartOf(t, before, es) && Execute(before, es) == Err(Step(t, es[n]).error)
  {
    ExecuteNext(before, es, n);
    FailureStays(before, es, n + 1);
  }

  lemma {:induction false} LinksSoFar(t: seq<Request>, request: nat, subs: seq<Message>, i: nat)
    requires Find(t, request) == |t| && i <= |subs|
    ensures Execute(t, Entries(request, subs)[..i + 1]) == Ok(t + [Linked(request, subs, i)])
  {
    var es := Entries(request, subs);
    if i == 0 {
      assert es[..0] == [];
      ExecuteNext(t, es, 0);
      assert Empty(request, |subs|) == Linked(request, subs, 0);
    } else {
      LinksSoFar(t, request, subs, i - 1);
      LinkNext(t, request, subs, i - 1);
      ExecuteNext(t, es, i);
    }
  }

  /** A request that is not in the table yet gets a row with every sub-request in its slot. */
  lemma {:induction false} NewParentIsLinked(t: seq<Request>, request: nat, subs: seq<Message>)
    requires Find(t, request) == |t|
    ensures Execute(t, Entries(request, subs)) == Ok(t + [Linked(request, subs, |subs|)])
  {
    LinksSoFar(t, request, subs, |subs|);
    assert Entries(request, subs)[..|subs| + 1] == Entries(request, subs);
  }
}
