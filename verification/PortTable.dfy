/** The port table of a node: virtual ports, each with the real ports registered for it. */
module PortTable {
  const PORT_OPEN := 0
  const PORT_NOT_FOUND := -1

  datatype RealPort = RealPort(vmID: int, user: int, rPort: int, operation: int)

  datatype Ports = Ports(vPort: int, rPorts: seq<RealPort>)

  /** One entry of the table seen as an ordered multimap. */
  datatype Registration = Registration(vPort: int, port: RealPort)

  // ---------------------------------------------------------------- the ordered multimap

  /** The real ports registered for a virtual port, oldest first. */
  function Registered(log: seq<Registration>, vPort: int): seq<RealPort> {
    if log == [] then []
    else
      var (before, last) := (Registered(log[..|log| - 1], vPort), log[|log| - 1]);
      if last.vPort == vPort then before + [last.port] else before
  }

  predicate Belongs(p: RealPort, vmID: int, user: int) { p.user == user && p.vmID == vmID }

  /** The registrations that do not belong to the VM, in their order. */
  function Without(log: seq<Registration>, vmID: int, user: int): seq<Registration> {
    if log == [] then []
    else
      var (before, last) := (Without(log[..|log| - 1], vmID, user), log[|log| - 1]);
      if Belongs(last.port, vmID, user) then before else before + [last]
  }

  function Kept(ports: seq<RealPort>, vmID: int, user: int): seq<RealPort> {
    if ports == [] then []
    else
      var (before, last) := (Kept(ports[..|ports| - 1], vmID, user), ports[|ports| - 1]);
      if Belongs(last, vmID, user) then before else before + [last]
  }

  /** Registration k is the oldest one for the port, the VM and the user. */
  ghost predicate IsEarliest(log: seq<Registration>, k: nat, vPort: int, vmID: int, user: int) {
    && k < |log| && log[k].vPort == vPort && log[k].port.vmID == vmID && log[k].port.user == user
    && IsAbsent(log[..k], vPort, vmID, user)
  }

  ghost predicate IsAbsent(log: seq<Registration>, vPort: int, vmID: int, user: int) {
    forall j :: 0 <= j < |log| ==> !(log[j].vPort == vPort && log[j].port.vmID == vmID && log[j].port.user == user)
  }

  /** The first of the real ports that belongs to the VM, or their number. */
  function FirstOf(ports: seq<RealPort>, vmID: int, user: int): (j: nat)
    ensures j <= |ports| && (j < |ports| ==> Belongs(ports[j], vmID, user))
    ensures forall i :: 0 <= i < j ==> !Belongs(ports[i], vmID, user)
  {
    if ports == [] || Belongs(ports[0], vmID, user) then 0 else 1 + FirstOf(ports[1..], vmID, user)
  }

  lemma {:induction false} FirstOfLonger(ports: seq<RealPort>, last: RealPort, vmID: int, user: int)
    ensures FirstOf(ports + [last], vmID, user) ==
            if FirstOf(ports, vmID, user) < |ports| || Belongs(last, vmID, user) then FirstOf(ports, vmID, user)
            else |ports| + 1
  {
    if ports == [] {
      assert [last][1..] == [];
    } else if !Belongs(ports[0], vmID, user) {
      assert (ports + [last])[1..] == ports[1..] + [last];
      FirstOfLonger(ports[1..], last, vmID, user);
    }
  }

  /** Searching the real ports of one virtual port finds the oldest registration of all. */
  lemma {:induction false} FirstIsEarliest(log: seq<Registration>, vPort: int, vmID: int, user: int) returns (k: nat)
    ensures var (ports, j) := (Registered(log, vPort), FirstOf(Registered(log, vPort), vmID, user));
            if j < |ports| then IsEarliest(log, k, vPort, vmID, user) && log[k].port == ports[j]
            else IsAbsent(log, vPort, vmID, user)
  {
    if log == [] {
      k := 0;
    } else {
      var (front, last) := (log[..|log| - 1], log[|log| - 1]);
      var ports := Registered(front, vPort);
      k := FirstIsEarliest(front, vPort, vmID, user);
      assert log == front + [last];
      FirstOfLonger(ports, last.port, vmID, user);
      if FirstOf(ports, vmID, user) == |ports| && last.vPort == vPort && Belongs(last.port, vmID, user) {
        k := |front|;
        assert Registered(log, vPort) == ports + [last.port];
        assert IsEarliest(log, k, vPort, vmID, user);
      } else if FirstOf(ports, vmID, user) < |ports| {
        assert IsEarliest(log, k, vPort, vmID, user);
      }
    }
  }

  lemma RegisteredNext(log: seq<Registration>, r: Registration, vPort: int)
    ensures Registered(log + [r], vPort) ==
            if r.vPort == vPort then Registered(log, vPort) + [r.port] else Registered(log, vPort)
  {
    assert (log + [r])[..|log|] == log;
  }

  lemma {:induction false} KeptLonger(ports: seq<RealPort>, last: RealPort, vmID: int, user: int)
    ensures Kept(ports + [last], vmID, user) ==
            if Belongs(last, vmID, user) then Kept(ports, vmID, user) else Kept(ports, vmID, user) + [last]
  {
    assert (ports + [last])[..|ports|] == ports;
  }

  /** Removing a VM's registrations is the same port by port. */
  lemma {:induction false} RegisteredWithout(log: seq<Registration>, vPort: int, vmID: int, user: int)
    ensures Registered(Without(log, vmID, user), vPort) == Kept(Registered(log, vPort), vmID, user)
  {
    if log != [] {
      var (front, last) := (log[..|log| - 1], log[|log| - 1]);
      RegisteredWithout(front, vPort, vmID, user);
      KeptLonger(Registered(front, vPort), last.port, vmID, user);
      RegisteredNext(front, last, vPort);
      RegisteredNext(Without(front, vmID, user), last, vPort);
      assert log == front + [last];
    }
  }

  /** Removing a VM's registrations leaves exactly the others: nothing of the VM, and everything else. */
  lemma {:induction false} WithoutIsExact(log: seq<Registration>, vmID: int, user: int)
    ensures forall r :: multiset(Without(log, vmID, user))[r] ==
              if r.port.vmID == vmID && r.port.user == user then 0 else multiset(log)[r]
  {
    if log != [] {
      var (front, last) := (log[..|log| - 1], log[|log| - 1]);
      WithoutIsExact(front, vmID, user);
      assert log == front + [last];
    }
  }

  /** It keeps the order: what is left of a log is what is left of its first part, and behind that what is
      left of the rest. */
  lemma {:induction false} WithoutKeepsOrder(a: seq<Registration>, b: seq<Registration>, vmID: int, user: int)
    ensures Without(a + b, vmID, user) == Without(a, vmID, user) + Without(b, vmID, user)
    ensures |b| == 1 ==> Without(b, vmID, user) == if b[0].port.vmID == vmID && b[0].port.user == user then [] else b
  {
    if b == [] {
      assert a + b == a;
    } else {
      var (front, last) := (b[..|b| - 1], b[|b| - 1]);
      assert (a + b)[..|a + b| - 1] == a + front;
      WithoutKeepsOrder(a, front, vmID, user);
      if |b| == 1 {
        assert front == [] && b == [last];
      }
    }
  }

  // ---------------------------------------------------------------- the table refines it

  /** The position of a virtual port in the table, or the number of virtual ports. */
  function Find(t: seq<Ports>, vPort: int): (i: nat)
    ensures i <= |t| && (i < |t| ==> t[i].vPort == vPort)
    ensures forall j :: 0 <= j < i ==> t[j].vPort != vPort
  {
    if t == [] || t[0].vPort == vPort then 0 else 1 + Find(t[1..], vPort)
  }

  function PortsOf(t: seq<Ports>, vPort: int): seq<RealPort> {
    var i := Find(t, vPort);
    if i < |t| then t[i].rPorts else []
  }

  ghost predicate Unique(t: seq<Ports>) {
    forall i, j :: 0 <= i < j < |t| ==> t[i].vPort != t[j].vPort
  }

  ghost predicate Represents(t: seq<Ports>, log: seq<Registration>) {
    Unique(t) && forall v :: PortsOf(t, v) == Registered(log, v)
  }

  lemma {:induction false} FindUnique(t: seq<Ports>, i: nat)
    requires Unique(t) && i < |t|
    ensures Find(t, t[i].vPort) == i
  {
    if i > 0 {
      FindUnique(t[1..], i - 1);
    }
  }

  lemma {:induction false} FindAppended(t: seq<Ports>, p: Ports, v: int)
    ensures Find(t + [p], v) == if Find(t, v) < |t| || p.vPort == v then Find(t, v) else |t| + 1
  {
    if t == [] {
      assert [p][1..] == [];
    } else if t[0].vPort != v {
      assert (t + [p])[1..] == t[1..] + [p];
      FindAppended(t[1..], p, v);
    }
  }

  lemma {:induction false} SamePorts(t: seq<Ports>, u: seq<Ports>, v: int)
    requires |t| == |u| && forall i :: 0 <= i < |t| ==> t[i].vPort == u[i].vPort
    ensures Find(t, v) == Find(u, v)
  {
    if t != [] && t[0].vPort != v {
      SamePorts(t[1..], u[1..], v);
    }
  }

  lemma RegisterKeeps(t: seq<Ports>, log: seq<Registration>, v: int, p: RealPort)
    requires Represents(t, log)
    ensures var i := Find(t, v);
            Represents(if i < |t| then t[i := Ports(v, t[i].rPorts + [p])] else t + [Ports(v, [p])],
                       log + [Registration(v, p)])
  {
    var i := Find(t, v);
    var t' := if i < |t| then t[i := Ports(v, t[i].rPorts + [p])] else t + [Ports(v, [p])];
    forall w ensures PortsOf(t', w) == Registered(log + [Registration(v, p)], w) {
      assert PortsOf(t, w) == Registered(log, w);
      PortsAfterRegistering(t, v, p, w);
      RegisteredNext(log, Registration(v, p), w);
    }
  }

  lemma PortsAfterRegistering(t: seq<Ports>, v: int, p: RealPort, w: int)
    ensures var i := Find(t, v);
            PortsOf(if i < |t| then t[i := Ports(v, t[i].rPorts + [p])] else t + [Ports(v, [p])], w) ==
            if w == v then PortsOf(t, w) + [p] else PortsOf(t, w)
  {
    var i := Find(t, v);
    if i < |t| {
      SamePorts(t, t[i := Ports(v, t[i].rPorts + [p])], w);
    } else {
      FindAppended(t, Ports(v, [p]), w);
      assert [] + [p] == [p];
    }
  }

  function Freed(t: seq<Ports>, vmID: int, user: int): seq<Ports> {
    seq(|t|, i requires 0 <= i < |t| => Ports(t[i].vPort, Kept(t[i].rPorts, vmID, user)))
  }

  lemma FreeKeeps(t: seq<Ports>, log: seq<Registration>, vmID: int, user: int)
    requires Represents(t, log)
    ensures Represents(Freed(t, vmID, user), Without(log, vmID, user))
  {
    forall w ensures PortsOf(Freed(t, vmID, user), w) == Registered(Without(log, vmID, user), w) {
      SamePorts(t, Freed(t, vmID, user), w);
      RegisteredWithout(log, w, vmID, user);
      assert PortsOf(t, w) == Registered(log, w);
    }
  }

  class NodePorts {
    const ipNode: string
    var virtualPorts: seq<Ports>
    /** The surviving registrations, in the order in which they were made. */
    ghost var log: seq<Registration>

    ghost predicate Valid()
      reads this
    {
      Represents(virtualPorts, log)
    }

    constructor (ipNode: string)
      ensures Valid() && log == [] && this.ipNode == ipNode
    {
      this.ipNode := ipNode;
      virtualPorts := [];
      log := [];
    }

    method RegisterPort(rPort: int, vPort: int, user: int, vmID: int, operation: int)
      requires Valid()
      modifies this
      ensures Valid() && log == old(log) + [Registration(vPort, RealPort(vmID, user, rPort, operation))]
    {
      var realPort := RealPort(vmID, user, rPort, operation);
      RegisterKeeps(virtualPorts, log, vPort, realPort);
      var (i, found) := (0, false);
      while i < |virtualPorts| && !found
        invariant 0 <= i <= |old(virtualPorts)|
        invariant forall l :: 0 <= l < i ==> old(virtualPorts)[l].vPort != vPort
        invariant !found ==> virtualPorts == old(virtualPorts)
        invariant found ==> Find(old(virtualPorts), vPort) == i < |old(virtualPorts)|
                            && virtualPorts ==
                               old(virtualPorts)[i := Ports(vPort, old(virtualPorts)[i].rPorts + [realPort])]
        decreases |virtualPorts| - i, !found
      {
        if virtualPorts[i].vPort == vPort {
          FindUnique(virtualPorts, i);
          virtualPorts := virtualPorts[i := Ports(vPort, virtualPorts[i].rPorts + [realPort])];
          found := true;
        } else {
          i := i + 1;
        }
      }
      if !found {
        virtualPorts := virtualPorts + [Ports(vPort, [realPort])];
      }
      log := old(log) + [Registration(vPort, realPort)];
    }

    /** The real port of the earliest surviving registration for the port, the VM and the user. */
    method GetRealPort(vPort: int, vmID: int, user: int) returns (realPort: int)
      requires Valid()
      ensures IsAbsent(log, vPort, vmID, user) ==> realPort == PORT_NOT_FOUND
      ensures forall k: nat :: IsEarliest(log, k, vPort, vmID, user) ==> realPort == log[k].port.rPort
    {
      realPort := PORT_NOT_FOUND;
      var (i, found) := (0, false);
      while i < |virtualPorts| && !found
        invariant 0 <= i <= |virtualPorts|
        invariant !found ==> realPort == PORT_NOT_FOUND
        invariant !found ==> forall l | 0 <= l < i && virtualPorts[l].vPort == vPort ::
                               NoneBelongs(virtualPorts[l].rPorts, vmID, user)
        invariant found ==> i < |virtualPorts| && virtualPorts[i].vPort == vPort
                            && IsFirstOf(virtualPorts[i].rPorts, vmID, user, realPort)
        decreases |virtualPorts| - i, !found
      {
        if virtualPorts[i].vPort == vPort {
          var port := virtualPorts[i].rPorts;
          var j := 0;
          while j < |port| && !found
            invariant 0 <= j <= |port|
            invariant forall l :: 0 <= l < j ==> !Belongs(port[l], vmID, user)
            invariant found ==> j < |port| && Belongs(port[j], vmID, user) && realPort == port[j].rPort
            invariant !found ==> realPort == PORT_NOT_FOUND
            decreases |port| - j, !found
          {
            if port[j].user == user && port[j].vmID == vmID {
              realPort := port[j].rPort;
              found := true;
            } else {
              j := j + 1;
            }
          }
          if !found {
            i := i + 1;
          }
        } else {
          i := i + 1;
        }
      }
      if found {
        FirstInTable(virtualPorts, log, i, vmID, user);
      } else {
        NotInTable(virtualPorts, log, vPort, vmID, user);
      }
    }

    /** As GetRealPort, but the port is given only if that registration is open. */
    method GetOpenRealPort(vPort: int, user: int, vmID: int) returns (realPort: int)
      requires Valid()
      ensures IsAbsent(log, vPort, vmID, user) ==> realPort == PORT_NOT_FOUND
      ensures forall k: nat :: IsEarliest(log, k, vPort, vmID, user) ==>
                realPort == if log[k].port.operation == PORT_OPEN then log[k].port.rPort else PORT_NOT_FOUND
    {
      realPort := PORT_NOT_FOUND;
      var (i, found) := (0, false);
      while i < |virtualPorts| && !found
        invariant 0 <= i <= |virtualPorts|
        invariant forall l :: 0 <= l < i ==> virtualPorts[l].vPort != vPort
        invariant if found then i < |virtualPorts| && virtualPorts[i].vPort == vPort
                                && realPort == OpenPort(virtualPorts[i].rPorts, vmID, user)
                  else realPort == PORT_NOT_FOUND
        decreases |virtualPorts| - i, !found
      {
        if virtualPorts[i].vPort == vPort {
          var port := virtualPorts[i].rPorts;
          var j := 0;
          while j < |port| && !found
            invariant 0 <= j <= |port|
            invariant forall l :: 0 <= l < j ==> !Belongs(port[l], vmID, user)
            invariant found ==> j < |port| && Belongs(port[j], vmID, user)
            invariant realPort == if found && port[j].operation == PORT_OPEN then port[j].rPort else PORT_NOT_FOUND
            decreases |port| - j, !found
          {
            if port[j].vmID == vmID && port[j].user == user {
              found := true;
              if port[j].operation == PORT_OPEN {
                realPort := port[j].rPort;
              } else {
                realPort := PORT_NOT_FOUND;
              }
            } else {
              j := j + 1;
            }
          }
          assert realPort == OpenPort(port, vmID, user);
          found := true;
        } else {
          i := i + 1;
        }
      }
      if found {
        FirstInTable(virtualPorts, log, i, vmID, user);
      } else {
        NotInTable(virtualPorts, log, vPort, vmID, user);
      }
    }

    /** Removes all registrations of a VM and no others, and keeps the order of the rest. */
    method FreeVMPorts(vmID: int, user: int)
      requires Valid()
      modifies this
      ensures Valid() && log == Without(old(log), vmID, user)
    {
      ghost var (before, freed) := (virtualPorts, Freed(virtualPorts, vmID, user));
      for i := 0 to |virtualPorts|
        invariant |virtualPorts| == |before|
        invariant forall k :: 0 <= k < i ==> virtualPorts[k] == freed[k]
        invariant forall k :: i <= k < |before| ==> virtualPorts[k] == before[k]
      {
        var kept := FreeOfPort(virtualPorts[i].rPorts, vmID, user);
        virtualPorts := virtualPorts[i := Ports(virtualPorts[i].vPort, kept)];
      }
      assert virtualPorts == freed;
      FreeKeeps(before, old(log), vmID, user);
      log := Without(old(log), vmID, user);
    }

    method FreeOfPort(rPorts: seq<RealPort>, vmID: int, user: int) returns (kept: seq<RealPort>)
      ensures kept == Kept(rPorts, vmID, user)
    {
      kept := rPorts;
      var j := 0;
      ghost var (seen, done) := (0, []);
      while j < |kept|
        invariant 0 <= seen <= |rPorts| && done == Kept(rPorts[..seen], vmID, user)
        invariant kept == done + rPorts[seen..] && j == |done|
        decreases |kept| - j
      {
        FreeStep(rPorts, seen, done, kept, vmID, user);
        if kept[j].vmID == vmID && kept[j].user == user {
          kept := kept[..j] + kept[j + 1..];
        } else {
          done := done + [kept[j]];
          j := j + 1;
        }
        seen := seen + 1;
      }
      assert rPorts[..seen] == rPorts;
    }
  }

  lemma CutOne(done: seq<RealPort>, all: seq<RealPort>, n: nat)
    requires n < |all|
    ensures var s := done + all[n..];
            && s[|done|] == all[n]
            && s[..|done|] + s[|done| + 1..] == done + all[n + 1..]
            && s == done + [all[n]] + all[n + 1..]
  {}

  /** The first of the real ports that belongs to the VM, if it is open. */
  function OpenPort(ports: seq<RealPort>, vmID: int, user: int): int {
    var j := FirstOf(ports, vmID, user);
    if j < |ports| && ports[j].operation == PORT_OPEN then ports[j].rPort else PORT_NOT_FOUND
  }

  predicate NoneBelongs(ports: seq<RealPort>, vmID: int, user: int) {
    forall l :: 0 <= l < |ports| ==> !Belongs(ports[l], vmID, user)
  }

  ghost predicate IsFirstOf(ports: seq<RealPort>, vmID: int, user: int, realPort: int) {
    var j := FirstOf(ports, vmID, user);
    j < |ports| && ports[j].rPort == realPort
  }

  lemma KeptNext(ports: seq<RealPort>, n: nat, vmID: int, user: int)
    requires n < |ports|
    ensures Kept(ports[..n + 1], vmID, user) ==
            if Belongs(ports[n], vmID, user) then Kept(ports[..n], vmID, user)
            else Kept(ports[..n], vmID, user) + [ports[n]]
  {
    assert ports[..n + 1][..n] == ports[..n];
  }

  /** The next port is either cut out or left. */
  lemma FreeStep(all: seq<RealPort>, n: nat, done: seq<RealPort>, kept: seq<RealPort>, vmID: int, user: int)
    requires n < |all| && done == Kept(all[..n], vmID, user) && kept == done + all[n..]
    ensures kept[|done|] == all[n]
    ensures Belongs(all[n], vmID, user) ==>
              Kept(all[..n + 1], vmID, user) == done && kept[..|done|] + kept[|done| + 1..] == done + all[n + 1..]
    ensures !Belongs(all[n], vmID, user) ==>
              Kept(all[..n + 1], vmID, user) == done + [all[n]] && kept == done + [all[n]] + all[n + 1..]
  {
    KeptNext(all, n, vmID, user);
    CutOne(done, all, n);
  }

  /** The oldest registration is the first one among the real ports of its virtual port. */
  lemma FirstInTable(t: seq<Ports>, log: seq<Registration>, i: nat, vmID: int, user: int)
    requires Represents(t, log) && i < |t|
    ensures var (ports, j) := (t[i].rPorts, FirstOf(t[i].rPorts, vmID, user));
            if j < |ports|
            then !IsAbsent(log, t[i].vPort, vmID, user)
                 && forall k: nat :: IsEarliest(log, k, t[i].vPort, vmID, user) ==> log[k].port == ports[j]
            else IsAbsent(log, t[i].vPort, vmID, user)
  {
    FindUnique(t, i);
    assert PortsOf(t, t[i].vPort) == Registered(log, t[i].vPort);
    var k := FirstIsEarliest(log, t[i].vPort, vmID, user);
  }

  lemma NotInTable(t: seq<Ports>, log: seq<Registration>, vPort: int, vmID: int, user: int)
    requires Represents(t, log)
    requires forall l :: 0 <= l < |t| && t[l].vPort == vPort ==> NoneBelongs(t[l].rPorts, vmID, user)
    ensures IsAbsent(log, vPort, vmID, user)
  {
    assert PortsOf(t, vPort) == Registered(log, vPort);
    var k := FirstIsEarliest(log, vPort, vmID, user);
  }
}
