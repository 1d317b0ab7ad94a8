/** The port tables of all nodes, kept in an order that is only partial, and looked up by bisection. */
module PortLookup {
  import opened PortTable
  import opened VirtualIps
  import opened Wrappers

  datatype Error = NotInTheTableOfNodes

  /** Every part of a is at least the same part of b. Two addresses may be incomparable. */
  predicate IsMajor(a: Address, b: Address) {
    a.first >= b.first && a.second >= b.second && a.third >= b.third && a.fourth >= b.fourth
  }

  lemma MajorIsPartialOrder(a: Address, b: Address, c: Address)
    ensures IsMajor(a, a) && (IsMajor(a, b) && IsMajor(b, a) ==> a == b) &&
            (IsMajor(a, b) && IsMajor(b, c) ==> IsMajor(a, c))
    ensures !IsMajor(Address(1, 0, 0, 0), Address(0, 1, 0, 0)) && !IsMajor(Address(0, 1, 0, 0), Address(1, 0, 0, 0))
  {}

  /** An address reaches another exactly if none of its parts is smaller. Of an address and its successor
      neither reaches the other when a digit is carried. */
  lemma MajorIsByParts(a: Address, i: int, j: int, k: int, l: int)
    ensures IsMajor(Address(a.first + i, a.second + j, a.third + k, a.fourth + l), a) <==>
            i >= 0 && j >= 0 && k >= 0 && l >= 0
    ensures InRange(a) && Incremented(a).Some? ==>
              && (IsMajor(Incremented(a).value, a) <==> a.fourth < 256)
              && !IsMajor(a, Incremented(a).value)
  {}

  function IpsOf(nodes: seq<NodePorts>): seq<string> {
    seq(|nodes|, i requires 0 <= i < |nodes| => nodes[i].ipNode)
  }

  /** The answer that a search through all nodes would give. */
  ghost predicate IsRightAnswer(nodes: seq<NodePorts>, nodeIP: string, r: Result<NodePorts, Error>) {
    if r.Ok? then r.value in nodes && r.value.ipNode == nodeIP else nodeIP !in IpsOf(nodes)
  }

  /** With different IPs there is only one right answer. */
  lemma RightAnswerIsUnique(nodes: seq<NodePorts>, nodeIP: string, r: Result<NodePorts, Error>,
                           s: Result<NodePorts, Error>)
    requires forall i, j :: 0 <= i < j < |nodes| ==> nodes[i].ipNode != nodes[j].ipNode
    requires IsRightAnswer(nodes, nodeIP, r) && IsRightAnswer(nodes, nodeIP, s)
    ensures r == s
  {
    forall n | n in nodes ensures n.ipNode in IpsOf(nodes) {
      IpListed(nodes, n);
    }
    if r.Ok? && s.Ok? {
      var i :| 0 <= i < |nodes| && nodes[i] == r.value;
      var j :| 0 <= j < |nodes| && nodes[j] == s.value;
      assert nodes[i].ipNode == nodes[j].ipNode;
    } else if r.Err? && s.Err? {
      assert r.error == NotInTheTableOfNodes == s.error;
    }
  }

  lemma IpListed(nodes: seq<NodePorts>, n: NodePorts)
    requires n in nodes
    ensures n.ipNode in IpsOf(nodes)
  {
    var i :| 0 <= i < |nodes| && nodes[i] == n;
    assert IpsOf(nodes)[i] == n.ipNode;
  }

  /** Half of a window, rounded up: what a probe leaves. */
  function Half(w: nat): nat { w - w / 2 }

  function Halved(w: nat, probes: nat): nat {
    if probes == 0 then w else Half(Halved(w, probes - 1))
  }

  /** However often it is halved, a window is not empty. */
  lemma {:induction false} WindowNeverEmpty(w: nat, probes: nat)
    requires w > 0
    ensures 0 < Halved(w, probes) <= w
  {
    if probes > 0 {
      WindowNeverEmpty(w, probes - 1);
    }
  }

  class PortDirectory {
    /** How an address is read from its text. For text that is no address the reading is not
        determined, so nothing is said about this function. */
    const scan: string -> Address
    var portsPerNode: seq<NodePorts>

    constructor (scan: string -> Address)
      ensures this.scan == scan && portsPerNode == []
    {
      this.scan := scan;
      portsPerNode := [];
    }

    /** Inserts a new table in front of the first node whose address the new one does not reach, and
        gives its position. */
    method RegisterNode(nodeIP: string) returns (i: nat)
      modifies this
      ensures i <= |old(portsPerNode)| && i < |portsPerNode|
      ensures portsPerNode == old(portsPerNode)[..i] + [portsPerNode[i]] + old(portsPerNode)[i..]
      ensures fresh(portsPerNode[i]) && portsPerNode[i].ipNode == nodeIP
      ensures portsPerNode[i].Valid() && portsPerNode[i].log == []
      ensures forall j :: 0 <= j < i ==> IsMajor(scan(nodeIP), scan(old(portsPerNode)[j].ipNode))
      ensures i < |old(portsPerNode)| ==> !IsMajor(scan(nodeIP), scan(old(portsPerNode)[i].ipNode))
    {
      var portTable := new NodePorts(nodeIP);
      var found := false;
      i := 0;
      var size := |portsPerNode|;
      ghost var before := portsPerNode;
      while i < size && !found
        invariant 0 <= i <= |before| && portTable.Valid() && portTable.log == []
        invariant forall j :: 0 <= j < i ==> IsMajor(scan(nodeIP), scan(before[j].ipNode))
        invariant !found ==> portsPerNode == before
        invariant found ==> i < |before| && portsPerNode == before[..i] + [portTable] + before[i..]
                            && !IsMajor(scan(nodeIP), scan(before[i].ipNode))
        decreases size - i, !found
      {
        if !IsMajor(scan(nodeIP), scan(portsPerNode[i].ipNode)) {
          portsPerNode := portsPerNode[..i] + [portTable] + portsPerNode[i..];
          found := true;
        } else {
          i := i + 1;
        }
      }
      if !found {
        portsPerNode := portsPerNode + [portTable];
      }
      assert portsPerNode[i] == portTable;
    }

    /** Bisects as often as there are nodes, then searches them all. A single node is taken as it is.
        `probes` counts the bisection steps. */
    method GetNodeFromPortsTable(nodeIP: string) returns (r: Result<NodePorts, Error>, probes: nat)
      ensures |portsPerNode| == 1 ==> r == Ok(portsPerNode[0])
      ensures |portsPerNode| != 1 ==> IsRightAnswer(portsPerNode, nodeIP, r)
      ensures IsRightAnswer(portsPerNode, nodeIP, r) <==> |portsPerNode| != 1 || portsPerNode[0].ipNode == nodeIP
      ensures probes <= |portsPerNode|
    {
      probes := 0;
      r := Err(NotInTheTableOfNodes);
      if |portsPerNode| == 1 {
        r := Ok(portsPerNode[0]);
        assert IpsOf(portsPerNode)[0] == portsPerNode[0].ipNode;
      } else {
        var (lower, higher, found) := (0, |portsPerNode|, false);
        var i := lower;
        while i < higher && !found
          invariant i == 0 <= lower && higher <= |portsPerNode| && probes <= |portsPerNode|
          invariant |portsPerNode| > 0 ==>
                    lower < higher && (!found ==> higher - lower == Halved(|portsPerNode|, probes))
          invariant |portsPerNode| > 0 && !found ==> probes < |portsPerNode|
          invariant if found then r.Ok? && r.value in portsPerNode && r.value.ipNode == nodeIP else r.Err?
          decreases |portsPerNode| - probes
        {
          probes := probes + 1;
          WindowNeverEmpty(|portsPerNode|, probes);
          if higher == lower {
            // The window is never empty.
            assert false;
          } else {
            var medium := (higher - lower) / 2;
            var testing := portsPerNode[medium + lower].ipNode;
            if testing == nodeIP {
              found := true;
              r := Ok(portsPerNode[medium + lower]);
            } else if IsMajor(scan(testing), scan(nodeIP)) {
              higher := higher - medium;
            } else {
              lower := lower + medium;
            }
          }
          if probes == |portsPerNode| {
            break;
          }
        }
        if !found {
          for k := 0 to |portsPerNode|
            invariant if r.Ok? then r.value in portsPerNode && r.value.ipNode == nodeIP
                      else forall j :: 0 <= j < k ==> portsPerNode[j].ipNode != nodeIP
          {
            if portsPerNode[k].ipNode == nodeIP {
              r := Ok(portsPerNode[k]);
            }
          }
        }
      }
    }
  }
}
