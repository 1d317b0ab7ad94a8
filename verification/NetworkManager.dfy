/** The network manager: virtual addresses of the users' VMs, and the port tables of the nodes. */
module NetworkManager {
  import opened VirtualIps
  import opened Wrappers

  datatype Cell = Cell(ipNode: string, ip: Address, vmID: int)

  datatype UserSet = UserSet(userID: int, holesIP: seq<string>, cells: seq<Cell>, lastIP: string)

  // ---------------------------------------------------------------- searching

  /** The first user with the number, or the number of users. */
  function FindUser(users: seq<UserSet>, userID: int): (i: nat)
    ensures i <= |users| && (i < |users| ==> users[i].userID == userID)
    ensures forall j :: 0 <= j < i ==> users[j].userID != userID
  {
    if users == [] || users[0].userID == userID then 0 else 1 + FindUser(users[1..], userID)
  }

  function CellsOf(users: seq<UserSet>, userID: int): seq<Cell> {
    var i := FindUser(users, userID);
    if i < |users| then users[i].cells else []
  }

  /** The first cell with the virtual address, or the number of cells. */
  function FindVip(cells: seq<Cell>, vip: string): (i: nat)
    ensures i <= |cells| && (i < |cells| ==> Print(cells[i].ip) == vip)
    ensures forall j :: 0 <= j < i ==> Print(cells[j].ip) != vip
  {
    if cells == [] || Print(cells[0].ip) == vip then 0 else 1 + FindVip(cells[1..], vip)
  }

  function FindVm(cells: seq<Cell>, vmID: int): (i: nat)
    ensures i <= |cells| && (i < |cells| ==> cells[i].vmID == vmID)
    ensures forall j :: 0 <= j < i ==> cells[j].vmID != vmID
  {
    if cells == [] || cells[0].vmID == vmID then 0 else 1 + FindVm(cells[1..], vmID)
  }

  function NodeIPOf(cells: seq<Cell>, vip: string): string {
    var i := FindVip(cells, vip);
    if i < |cells| then cells[i].ipNode else ""
  }

  function VMidOf(cells: seq<Cell>, vip: string): int {
    var i := FindVip(cells, vip);
    if i < |cells| then cells[i].vmID else -1
  }

  function VMIPOf(cells: seq<Cell>, vmID: int): string {
    var i := FindVm(cells, vmID);
    if i < |cells| then Print(cells[i].ip) else ""
  }

  // ---------------------------------------------------------------- allocating

  /** The text of the user's next address: a freed one as it stands, or that of the successor of the last
      one given out, or nothing when that has none. */
  function NextText(u: UserSet, unset: Address): string {
    if u.holesIP != [] then u.holesIP[0]
    else
      var next := Incremented(Scan(u.lastIP, unset));
      if next.Some? then Print(next.value) else ""
  }

  /** The texts that are read fit the reader's buffer. */
  predicate FitsBuffer(u: UserSet, unset: Address) {
    (u.holesIP == [] ==> |u.lastIP| < BUFFER) && |NextText(u, unset)| < BUFFER
  }

  /** The user without the address that was given out. */
  function Advanced(u: UserSet, unset: Address): UserSet {
    if u.holesIP != [] then u.(holesIP := u.holesIP[1..]) else u.(lastIP := NextText(u, unset))
  }

  /** An allocation. `unset` and `unset'` are what the variables of the reader hold before it reads the
      last address and the new one. */
  datatype Allocation = Allocation(ipNode: string, vmID: int, unset: Address, unset': Address)

  function Allocated(u: UserSet, a: Allocation): UserSet {
    Advanced(u, a.unset).(cells := u.cells + [Cell(a.ipNode, Scan(NextText(u, a.unset), a.unset'), a.vmID)])
  }

  class NetworkManager {
    var ipBasis: string
    var ipsCloud: seq<UserSet>

    constructor ()
      ensures ipBasis == "" && ipsCloud == []
    {
      ipBasis := "";
      ipsCloud := [];
    }

    method CreateNewUser(newUserID: int)
      modifies this
      ensures ipBasis == old(ipBasis) && ipsCloud == old(ipsCloud) + [UserSet(newUserID, [], [], ipBasis)]
    {
      ipsCloud := ipsCloud + [UserSet(newUserID, [], [], ipBasis)];
    }

    method NewVIP(u: UserSet, unset: Address) returns (ip: string, u': UserSet)
      requires u.holesIP == [] ==> |u.lastIP| < BUFFER
      ensures ip == NextText(u, unset) && u' == Advanced(u, unset)
      ensures u.holesIP != [] ==> [ip] + u'.holesIP == u.holesIP && u'.lastIP == u.lastIP
      ensures u.holesIP == [] ==> u'.holesIP == [] && u'.lastIP == ip
      ensures u'.cells == u.cells && u'.userID == u.userID
    {
      if |u.holesIP| != 0 {
        ip := u.holesIP[0];
        u' := u.(holesIP := u.holesIP[1..]);
      } else {
        var vip := new VirtualIPs();
        if ipBasis == u.lastIP {
          vip.SetVirtualIP(ipBasis, unset);
          ip := vip.IncVirtualIP();
        } else {
          vip.SetVirtualIP(u.lastIP, unset);
          ip := vip.IncVirtualIP();
        }
        u' := u.(lastIP := ip);
      }
    }

    /** The new cell goes to the first user with the number; without such a user nothing happens. */
    method AllocateVirtualIP(userID: int, a: Allocation) returns (virtualIP: string)
      requires var i := FindUser(ipsCloud, userID); i < |ipsCloud| ==> FitsBuffer(ipsCloud[i], a.unset)
      modifies this
      ensures ipBasis == old(ipBasis)
      ensures var i := FindUser(old(ipsCloud), userID);
              if i == |old(ipsCloud)| then virtualIP == "" && ipsCloud == old(ipsCloud)
              else ipsCloud == old(ipsCloud)[i := Allocated(old(ipsCloud)[i], a)]
                   && virtualIP == NextText(old(ipsCloud)[i], a.unset)
    {
      virtualIP := "";
      for i := 0 to |ipsCloud|
        invariant ipsCloud == old(ipsCloud) && ipBasis == old(ipBasis) && virtualIP == ""
        invariant forall j :: 0 <= j < i ==> ipsCloud[j].userID != userID
      {
        if ipsCloud[i].userID == userID {
          FirstUser(ipsCloud, userID, i);
          var u;
          virtualIP, u := NewVIP(ipsCloud[i], a.unset);
          var cell := NewCell(virtualIP, a);
          ipsCloud := ipsCloud[i := u.(cells := u.cells + [cell])];
          return;
        }
      }
    }

    method NewCell(virtualIP: string, a: Allocation) returns (cell: Cell)
      requires |virtualIP| < BUFFER
      ensures cell == Cell(a.ipNode, Scan(virtualIP, a.unset'), a.vmID)
    {
      var vip := new VirtualIPs();
      vip.SetVirtualIP(virtualIP, a.unset');
      cell := Cell(a.ipNode, vip.Value(), a.vmID);
    }

    /** The scan over the cells of one user, which all searches by virtual address share. */
    method ScanCells(cells: seq<Cell>, virtualIP: string) returns (c: nat)
      ensures c == FindVip(cells, virtualIP)
    {
      var found := false;
      c := 0;
      while c < |cells| && !found
        invariant 0 <= c <= |cells|
        invariant forall j :: 0 <= j < c ==> Print(cells[j].ip) != virtualIP
        invariant found ==> c < |cells| && Print(cells[c].ip) == virtualIP
        decreases |cells| - c, !found
      {
        if Print(cells[c].ip) == virtualIP {
          found := true;
        } else {
          c := c + 1;
        }
      }
    }

    /** The scan over the users. */
    method ScanUsers(userID: int) returns (it: nat)
      ensures it == FindUser(ipsCloud, userID)
    {
      var found := false;
      it := 0;
      while it < |ipsCloud| && !found
        invariant 0 <= it <= |ipsCloud|
        invariant forall j :: 0 <= j < it ==> ipsCloud[j].userID != userID
        invariant found ==> it < |ipsCloud| && ipsCloud[it].userID == userID
        decreases |ipsCloud| - it, !found
      {
        if ipsCloud[it].userID == userID {
          found := true;
        } else {
          it := it + 1;
        }
      }
    }

    method SearchNodeIP(virtualIP: string, userID: int) returns (ipFound: string)
      ensures ipFound == NodeIPOf(CellsOf(ipsCloud, userID), virtualIP)
    {
      ipFound := "";
      var it := ScanUsers(userID);
      if it < |ipsCloud| {
        var c := ScanCells(ipsCloud[it].cells, virtualIP);
        if c < |ipsCloud[it].cells| {
          ipFound := ipsCloud[it].cells[c].ipNode;
        }
      }
    }

    method GetVMid(virtualIP: string, uId: int) returns (pIdFound: int)
      ensures pIdFound == VMidOf(CellsOf(ipsCloud, uId), virtualIP)
    {
      pIdFound := -1;
      var it := ScanUsers(uId);
      if it < |ipsCloud| {
        var c := ScanCells(ipsCloud[it].cells, virtualIP);
        if c < |ipsCloud[it].cells| {
          pIdFound := ipsCloud[it].cells[c].vmID;
        }
      }
    }

    method SearchVMIP(userID: int, vmID: int) returns (ipFound: string)
      ensures ipFound == VMIPOf(CellsOf(ipsCloud, userID), vmID)
    {
      ipFound := "";
      var it := ScanUsers(userID);
      if it < |ipsCloud| {
        var cells := ipsCloud[it].cells;
        var (c, found) := (0, false);
        while c < |cells| && !found
          invariant 0 <= c <= |cells|
          invariant forall j :: 0 <= j < c ==> cells[j].vmID != vmID
          invariant found ==> c < |cells| && cells[c].vmID == vmID
          decreases |cells| - c, !found
        {
          if cells[c].vmID == vmID {
            found := true;
          } else {
            c := c + 1;
          }
        }
        if found {
          ipFound := Print(cells[c].ip);
        }
      }
    }

    /** Moves a VM to another node: of the first cell with the address, only the node changes. The
        result is the last address that was compared. */
    method ChangeNodeIP(virtualIP: string, userID: int, nodeIP: string) returns (vIP: string)
      modifies this
      ensures ipBasis == old(ipBasis)
      ensures var i := FindUser(old(ipsCloud), userID);
              if i == |old(ipsCloud)| then ipsCloud == old(ipsCloud)
              else ipsCloud == old(ipsCloud)[i := WithMoved(old(ipsCloud)[i], virtualIP, nodeIP)]
      ensures vIP == LastCompared(old(CellsOf(ipsCloud, userID)), virtualIP)
    {
      vIP := "";
      var it := ScanUsers(userID);
      if it < |ipsCloud| {
        var cells := ipsCloud[it].cells;
        var c := ScanCells(cells, virtualIP);
        if c < |cells| {
          vIP := virtualIP;
          ipsCloud := ipsCloud[it := ipsCloud[it].(cells := cells[c := cells[c].(ipNode := nodeIP)])];
        } else if cells != [] {
          vIP := Print(cells[|cells| - 1].ip);
        }
      }
    }
  }

  /** The address at which a scan for `vip` ends. */
  function LastCompared(cells: seq<Cell>, vip: string): string {
    if FindVip(cells, vip) < |cells| then vip
    else if cells == [] then "" else Print(cells[|cells| - 1].ip)
  }

  function Moved(cells: seq<Cell>, vip: string, nodeIP: string): seq<Cell> {
    var i := FindVip(cells, vip);
    if i < |cells| then cells[i := cells[i].(ipNode := nodeIP)] else cells
  }

  function WithMoved(u: UserSet, vip: string, nodeIP: string): UserSet {
    u.(cells := Moved(u.cells, vip, nodeIP))
  }

  lemma {:induction false} FirstUser(users: seq<UserSet>, userID: int, i: nat)
    requires i < |users| && users[i].userID == userID && forall j :: 0 <= j < i ==> users[j].userID != userID
    ensures FindUser(users, userID) == i
  {}

  lemma {:induction false} FirstVip(cells: seq<Cell>, vip: string, i: nat)
    requires i < |cells| && Print(cells[i].ip) == vip && forall j :: 0 <= j < i ==> Print(cells[j].ip) != vip
    ensures FindVip(cells, vip) == i
  {}

  /** The searches by address find the first cell with it, or say that there is none. */
  lemma AddressIsFound(cells: seq<Cell>, vip: string, i: nat)
    requires i <= |cells| && forall j :: 0 <= j < i ==> Print(cells[j].ip) != vip
    requires i < |cells| ==> Print(cells[i].ip) == vip
    ensures NodeIPOf(cells, vip) == if i < |cells| then cells[i].ipNode else ""
    ensures VMidOf(cells, vip) == if i < |cells| then cells[i].vmID else -1
    ensures LastCompared(cells, vip) ==
            if i < |cells| then vip else if cells == [] then "" else Print(cells[|cells| - 1].ip)
  {
    assert FindVip(cells, vip) == i;
  }

  /** The search by VM finds the first cell of the VM, or says that there is none. */
  lemma VmIsSearched(cells: seq<Cell>, vmID: int, i: nat)
    requires i <= |cells| && forall j :: 0 <= j < i ==> cells[j].vmID != vmID
    requires i < |cells| ==> cells[i].vmID == vmID
    ensures VMIPOf(cells, vmID) == if i < |cells| then Print(cells[i].ip) else ""
  {
    assert FindVm(cells, vmID) == i;
  }

  /** They search the cells of the first user with the number. */
  lemma FirstUserIsSearched(users: seq<UserSet>, userID: int, i: nat)
    requires i <= |users| && forall j :: 0 <= j < i ==> users[j].userID != userID
    requires i < |users| ==> users[i].userID == userID
    ensures CellsOf(users, userID) == if i < |users| then users[i].cells else []
  {
    assert FindUser(users, userID) == i;
  }

  /** After a VM has moved, a search for its address finds the new node; every other address keeps its
      node, and all addresses and VMs are where they were. */
  lemma MoveIsFound(cells: seq<Cell>, vip: string, nodeIP: string, other: string, vmID: int)
    ensures var moved := Moved(cells, vip, nodeIP);
            && |moved| == |cells|
            && NodeIPOf(moved, vip) ==
               (if exists j :: 0 <= j < |cells| && Print(cells[j].ip) == vip then nodeIP else "")
            && (other != vip ==> NodeIPOf(moved, other) == NodeIPOf(cells, other))
            && VMidOf(moved, other) == VMidOf(cells, other) && VMIPOf(moved, vmID) == VMIPOf(cells, vmID)
  {
    var moved := Moved(cells, vip, nodeIP);
    assert forall j :: 0 <= j < |cells| ==> moved[j].ip == cells[j].ip && moved[j].vmID == cells[j].vmID;
    SamePlace(cells, moved, vip);
    SamePlace(cells, moved, other);
    SameVm(cells, moved, vmID);
  }

  lemma {:induction false} SamePlace(a: seq<Cell>, b: seq<Cell>, vip: string)
    requires |a| == |b| && forall j :: 0 <= j < |a| ==> a[j].ip == b[j].ip
    ensures FindVip(a, vip) == FindVip(b, vip)
  {
    if a != [] {
      SamePlace(a[1..], b[1..], vip);
    }
  }

  lemma {:induction false} SameVm(a: seq<Cell>, b: seq<Cell>, vmID: int)
    requires |a| == |b| && forall j :: 0 <= j < |a| ==> a[j].vmID == b[j].vmID
    ensures FindVm(a, vmID) == FindVm(b, vmID)
  {
    if a != [] {
      SameVm(a[1..], b[1..], vmID);
    }
  }

  // ---------------------------------------------------------------- allocation runs

  /** A user after a series of allocations, if all texts fit the buffer. */
  function AfterAll(u: UserSet, run: seq<Allocation>): Option<UserSet> {
    if run == [] then Some(u)
    else
      var (before, a) := (AfterAll(u, run[..|run| - 1]), run[|run| - 1]);
      if before.Some? && FitsBuffer(before.value, a.unset) then Some(Allocated(before.value, a)) else None
  }

  /** A user who has just been created with a basis that can be counted up. */
  predicate Fresh(u: UserSet) {
    u.holesIP == [] && u.cells == [] && Readable(u.lastIP) && InRange(Parse(u.lastIP).value)
  }

  function Basis(u: UserSet): int
    requires Fresh(u)
  {
    Number(Parse(u.lastIP).value)
  }

  /** The user has been given n addresses, and the next one is the n-th after the basis. */
  ghost predicate HasCounted(v: UserSet, basis: int, n: nat) {
    && v.holesIP == [] && |v.cells| == n
    && Readable(v.lastIP) && InRange(Parse(v.lastIP).value) && Number(Parse(v.lastIP).value) == basis + n
  }

  /** Below capacity the next address is given out; at capacity the text is empty, and so is the text
      that the one after it is counted up from. */
  lemma OneMore(v: UserSet, basis: int, n: nat, a: Allocation)
    requires HasCounted(v, basis, n)
    ensures FitsBuffer(v, a.unset)
    ensures basis + n + 1 < CAPACITY ==>
              var w := Allocated(v, a);
              && HasCounted(w, basis, n + 1) && w.cells[..n] == v.cells && IsAllocated(w.cells[n], a, basis + n + 1)
    ensures basis + n + 1 == CAPACITY ==>
              NextText(v, a.unset) == "" && Allocated(v, a).lastIP == "" && Allocated(v, a).cells[n].ip == a.unset'
  {
    var last := Parse(v.lastIP).value;
    assert Scan(v.lastIP, a.unset) == last;
    IncrementIsSuccessor(last);
    if basis + n + 1 < CAPACITY {
      var next := Incremented(last).value;
      PrintedFits(next);
      ParsePrinted(next);
      assert Scan(Print(next), a.unset') == next;
    } else {
      assert ScanInt("").None?;
    }
  }

  /** Freed addresses are given out again before new ones, the oldest first, as they stand; the last
      address stays. */
  lemma FreedComesFirst(u: UserSet, a: Allocation)
    requires u.holesIP != []
    ensures NextText(u, a.unset) == u.holesIP[0]
    ensures var w := Allocated(u, a);
            && [u.holesIP[0]] + w.holesIP == u.holesIP && w.lastIP == u.lastIP && w.userID == u.userID
            && w.cells == u.cells + [Cell(a.ipNode, Scan(u.holesIP[0], a.unset'), a.vmID)]
  {}

  /** Cell i holds the i-th allocation of the run and the i-th address after the basis. */
  ghost predicate AllAllocated(cells: seq<Cell>, run: seq<Allocation>, basis: int) {
    |cells| == |run| && forall i :: 0 <= i < |run| ==> IsAllocated(cells[i], run[i], basis + i + 1)
  }

  lemma AllocatedNext(cells: seq<Cell>, run: seq<Allocation>, basis: int, c: Cell, a: Allocation)
    requires AllAllocated(cells, run, basis) && IsAllocated(c, a, basis + |run| + 1)
    ensures AllAllocated(cells + [c], run + [a], basis)
  {}

  lemma AfterNext(u: UserSet, run: seq<Allocation>, a: Allocation)
    requires AfterAll(u, run).Some? && FitsBuffer(AfterAll(u, run).value, a.unset)
    ensures AfterAll(u, run + [a]) == Some(Allocated(AfterAll(u, run).value, a))
  {
    assert (run + [a])[..|run|] == run;
  }

  /** The user v has been through the run. */
  ghost predicate HasRun(u: UserSet, run: seq<Allocation>, basis: int, v: UserSet) {
    AfterAll(u, run) == Some(v) && HasCounted(v, basis, |run|) && AllAllocated(v.cells, run, basis)
  }

  lemma FrontAndLast(run: seq<Allocation>)
    requires run != []
    ensures run == run[..|run| - 1] + [run[|run| - 1]]
  {}

  lemma RunGoesOn(u: UserSet, run: seq<Allocation>, basis: int, v: UserSet) returns (w: UserSet)
    requires run != [] && HasRun(u, run[..|run| - 1], basis, v) && basis + |run| < CAPACITY
    ensures HasRun(u, run, basis, w)
  {
    var (front, a) := (run[..|run| - 1], run[|run| - 1]);
    FrontAndLast(run);
    OneMore(v, basis, |front|, a);
    w := Allocated(v, a);
    AfterNext(u, front, a);
    AllocatedNext(v.cells, front, basis, w.cells[|front|], a);
    assert w.cells == v.cells + [w.cells[|front|]];
  }

  lemma NothingRun(u: UserSet, basis: int)
    requires HasCounted(u, basis, 0)
    ensures HasRun(u, [], basis, u)
  {}

  /** Below capacity every allocation succeeds, and the i-th one gets the i-th address after the basis. */
  lemma {:induction false} RunCountsUp(u: UserSet, run: seq<Allocation>, basis: int) returns (v: UserSet)
    requires HasCounted(u, basis, 0) && basis + |run| < CAPACITY
    ensures HasRun(u, run, basis, v)
  {
    if run == [] {
      NothingRun(u, basis);
      v := u;
    } else {
      var before := RunCountsUp(u, run[..|run| - 1], basis);
      v := RunGoesOn(u, run, basis, before);
    }
  }

  /** The allocation after the last address of the counter gets no address: its text is empty, and its
      cell holds whatever the reader's variables held. */
  lemma RunsOutAtCapacity(u: UserSet, run: seq<Allocation>, basis: int, a: Allocation)
    requires HasCounted(u, basis, 0) && basis + |run| + 1 == CAPACITY
    ensures AfterAll(u, run).Some? && NextText(AfterAll(u, run).value, a.unset) == ""
    ensures var w := AfterAll(u, run + [a]);
            w.Some? && w.value.cells != [] && w.value.cells[|w.value.cells| - 1].ip == a.unset'
  {
    var v := RunCountsUp(u, run, basis);
    OneMore(v, basis, |run|, a);
    AfterNext(u, run, a);
  }

  predicate IsAllocated(c: Cell, a: Allocation, n: int) {
    c.ipNode == a.ipNode && c.vmID == a.vmID && InRange(c.ip) && Number(c.ip) == n
  }

  ghost predicate DistinctVms(run: seq<Allocation>) {
    forall i, j :: 0 <= i < j < |run| ==> run[i].vmID != run[j].vmID
  }

  /** In an allocation-only run below capacity all addresses of a user differ, and with different VM
      numbers the searches by address undo the search by VM. */
  lemma LookupsInvert(u: UserSet, run: seq<Allocation>)
    requires Fresh(u) && Basis(u) + |run| < CAPACITY
    ensures AfterAll(u, run).Some?
    ensures var cells := AfterAll(u, run).value.cells;
            && |cells| == |run|
            && (forall i, j :: 0 <= i < j < |run| ==> Print(cells[i].ip) != Print(cells[j].ip))
            && (forall i :: 0 <= i < |run| ==>
                  && NodeIPOf(cells, Print(cells[i].ip)) == run[i].ipNode
                  && VMidOf(cells, Print(cells[i].ip)) == run[i].vmID)
            && (DistinctVms(run) ==> forall i :: 0 <= i < |run| ==>
                  && VMIPOf(cells, run[i].vmID) == Print(cells[i].ip) != "")
  {
    var v := RunCountsUp(u, run, Basis(u));
    var cells := v.cells;
    forall i, j | 0 <= i < j < |run| ensures Print(cells[i].ip) != Print(cells[j].ip) {
      assert IsAllocated(cells[i], run[i], Basis(u) + i + 1) && IsAllocated(cells[j], run[j], Basis(u) + j + 1);
      if Print(cells[i].ip) == Print(cells[j].ip) {
        PrintIsInjective(cells[i].ip, cells[j].ip);
      }
    }
    forall i | 0 <= i < |run|
      ensures NodeIPOf(cells, Print(cells[i].ip)) == run[i].ipNode && VMidOf(cells, Print(cells[i].ip)) == run[i].vmID
    {
      FirstVip(cells, Print(cells[i].ip), i);
      assert IsAllocated(cells[i], run[i], Basis(u) + i + 1);
    }
    if DistinctVms(run) {
      forall i | 0 <= i < |run| ensures VMIPOf(cells, run[i].vmID) == Print(cells[i].ip) != "" {
        VmIsFound(cells, run, i);
        assert IsAllocated(cells[i], run[i], Basis(u) + i + 1);
        PrintedFits(cells[i].ip);
      }
    }
  }

  lemma {:induction false} VmIsFound(cells: seq<Cell>, run: seq<Allocation>, i: nat)
    requires i < |run| == |cells| && DistinctVms(run) && forall k :: 0 <= k < |run| ==> cells[k].vmID == run[k].vmID
    ensures FindVm(cells, run[i].vmID) == i
  {}
}
