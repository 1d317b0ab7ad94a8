/** RAID-0 splitting: the sectors of a request are dealt out in stripes over the disks. */
module Raid0 {
  import opened Arith
  import Arrivals
  import opened BlockFile
  import opened SplittingMessages
  import opened Wrappers

  datatype SubRequest = SubRequest(disk: nat, branches: seq<Branch>, fileSize: nat, traceIndex: nat)

  function Disk(sector: nat, bpr: nat, disks: nat): nat
    requires bpr > 0 && disks > 0
  {
    (sector / bpr) % disks
  }

  /** Where the cursor of the splitter stands after `pos` sectors. On a boundary it is at the start of
      the next branch of the list, even if that branch is empty. */
  function Cursor(bs: seq<Branch>, pos: nat): nat
    requires pos < |Sectors(bs)|
  {
    if pos == 0 || pos < bs[0].size then bs[0].offset + pos else Cursor(bs[1..], pos - bs[0].size)
  }

  /** The branch the cursor is in then. */
  function FirstBranch(bs: seq<Branch>, pos: nat): nat
    requires pos < |Sectors(bs)|
  {
    if pos == 0 || pos < bs[0].size then 0 else 1 + FirstBranch(bs[1..], pos - bs[0].size)
  }

  /** Sub-request number `index` holds `bpr` sectors of the parent from `start` on, or what is left,
      and goes to the disk of the cursor at `start`. */
  ghost predicate IsPiece(bs: seq<Branch>, sub: SubRequest, index: nat, start: nat, bpr: nat, disks: nat)
    requires bpr > 0 && disks > 0
  {
    && start < |Sectors(bs)|
    && Sectors(sub.branches) == Sectors(bs)[start..Min(start + bpr, |Sectors(bs)|)]
    && sub.disk == Disk(Cursor(bs, start), bpr, disks)
    && sub.traceIndex == index
    && sub.branches != []
    && sub.fileSize == sub.branches[|sub.branches| - 1].size * BYTES_PER_SECTOR
  }

  /** What the splitter makes of a branch list: the sub-requests cut the parent's sectors, in order,
      into slices of `bpr`, the last one possibly shorter. */
  ghost predicate IsSplit(bs: seq<Branch>, subs: seq<SubRequest>, bpr: nat, disks: nat)
    requires bpr > 0 && disks > 0
  {
    && (|subs| - 1) * bpr < |Sectors(bs)| <= |subs| * bpr
    && forall i :: 0 <= i < |subs| ==> IsPiece(bs, subs[i], i, i * bpr, bpr, disks)
  }

  // ---------------------------------------------------------------- the splitter

  /** The number of sectors in front of branch k. */
  function Before(bs: seq<Branch>, k: nat): nat
    requires k <= |bs|
  {
    |Sectors(bs[..k])|
  }

  /** The pieces belong to consecutive branches, from `first` on. The first piece begins at `offset`,
      every other one where its branch begins; every piece but the last ends where its branch ends, and
      the last one not behind it. */
  ghost predicate AtBranchEnds(bs: seq<Branch>, pieces: seq<Branch>, first: nat, offset: nat) {
    && first + |pieces| <= |bs|
    && (forall i :: 0 <= i < |pieces| ==> pieces[i].offset == if i == 0 then offset else bs[first + i].offset)
    && (forall i :: 0 <= i < |pieces| - 1 ==> End(pieces[i]) == End(bs[first + i]))
    && (pieces != [] ==> End(pieces[|pieces| - 1]) <= End(bs[first + |pieces| - 1]))
  }

  function End(b: Branch): nat { b.offset + b.size }

  /** A stripe is cut where the branches end and nowhere else; its last piece is not empty. */
  ghost predicate IsCut(bs: seq<Branch>, pieces: seq<Branch>, start: nat) {
    && start < |Sectors(bs)|
    && AtBranchEnds(bs, pieces, FirstBranch(bs, start), Cursor(bs, start))
    && pieces != [] && pieces[|pieces| - 1].size > 0
  }

  ghost predicate CutAtBranches(bs: seq<Branch>, subs: seq<SubRequest>, bpr: nat) {
    forall i :: 0 <= i < |subs| ==> IsCut(bs, subs[i].branches, i * bpr)
  }

  /** The cursor variables describe the position `pos` of the list. */
  ghost predicate At(bs: seq<Branch>, branch: nat, offset: nat, size: nat, pos: nat) {
    && branch < |bs|
    && size <= bs[branch].size
    && offset == bs[branch].offset + (bs[branch].size - size)
    && pos == Before(bs, branch) + (bs[branch].size - size)
  }

  /** A position strictly inside a branch, or at the start of one that follows a non-empty branch. */
  ghost predicate OnCourse(bs: seq<Branch>, branch: nat, pos: nat) {
    && branch < |bs|
    && Before(bs, branch) <= pos
    && (pos < Before(bs, branch) + bs[branch].size || pos == Before(bs, branch))
    && (pos == Before(bs, branch) && branch > 0 ==> bs[branch - 1].size > 0)
  }

  lemma SectorsAround(bs: seq<Branch>, k: nat)
    requires k < |bs|
    ensures Sectors(bs) == Sectors(bs[..k]) + Run(bs[k].offset, bs[k].size) + Sectors(bs[k + 1..])
    ensures Before(bs, k + 1) == Before(bs, k) + bs[k].size <= |Sectors(bs)|
    ensures k + 1 == |bs| ==> Before(bs, k + 1) == |Sectors(bs)|
  {
    var (before, upTo, rest) := (bs[..k], bs[..k + 1], bs[k + 1..]);
    assert upTo == before + [bs[k]];
    SectorsAppend(before, bs[k]);
    assert bs == upTo + rest;
    SectorsConcat(upTo, rest);
    if k + 1 == |bs| {
      assert rest == [];
    }
  }

  lemma {:induction false} CursorIs(bs: seq<Branch>, branch: nat, pos: nat)
    requires pos < |Sectors(bs)| && OnCourse(bs, branch, pos)
    ensures Cursor(bs, pos) == bs[branch].offset + (pos - Before(bs, branch))
    ensures FirstBranch(bs, pos) == branch
  {
    if branch > 0 {
      SectorsAround(bs, branch - 1);
      var rest := bs[1..];
      assert bs[..branch][0] == bs[0] && bs[..branch][1..] == rest[..branch - 1];
      assert Before(bs, branch) == bs[0].size + Before(rest, branch - 1);
      assert OnCourse(rest, branch - 1, pos - bs[0].size);
      CursorIs(rest, branch - 1, pos - bs[0].size);
    }
  }

  lemma SliceOfMiddle(s: seq<nat>, a: seq<nat>, r: seq<nat>, c: seq<nat>, d: nat, n: nat)
    requires s == a + r + c && d + n <= |r|
    ensures s[|a| + d..|a| + d + n] == r[d..d + n]
  {}

  lemma SliceOfRun(offset: nat, size: nat, d: nat, n: nat)
    requires d + n <= size
    ensures Run(offset, size)[d..d + n] == Run(offset + d, n)
  {}

  lemma JoinSlices(s: seq<nat>, i: nat, j: nat, k: nat)
    requires i <= j <= k <= |s|
    ensures s[i..j] + s[j..k] == s[i..k]
  {}

  /** The n sectors behind the cursor are the piece the inner loop adds. */
  lemma PieceContent(bs: seq<Branch>, branch: nat, offset: nat, size: nat, pos: nat, n: nat)
    requires At(bs, branch, offset, size, pos) && n <= size
    ensures pos + n <= |Sectors(bs)| && Sectors(bs)[pos..pos + n] == Run(offset, n)
  {
    SectorsAround(bs, branch);
    var b := bs[branch];
    SliceOfRun(b.offset, b.size, b.size - size, n);
    SliceOfMiddle(Sectors(bs), Sectors(bs[..branch]), Run(b.offset, b.size),
                  Sectors(bs[branch + 1..]), b.size - size, n);
  }

  lemma AddPiece(s: seq<nat>, branches: seq<Branch>, start: nat, pos: nat, piece: Branch)
    requires start <= pos && pos + piece.size <= |s|
    requires Sectors(branches) == s[start..pos] && s[pos..pos + piece.size] == Run(piece.offset, piece.size)
    ensures Sectors(branches + [piece]) == s[start..pos + piece.size]
  {
    SectorsAppend(branches, piece);
    JoinSlices(s, start, pos, pos + piece.size);
  }

  /** One round of the inner loop moves the cursor n sectors on, and off a used-up branch. */
  lemma CursorMoves(bs: seq<Branch>, branch: nat, offset: nat, size: nat, pos: nat, n: nat)
    requires At(bs, branch, offset, size, pos) && n <= size
    ensures At(bs, branch, offset + n, size - n, pos + n)
    ensures size == n && pos + n < |Sectors(bs)| ==>
              branch + 1 < |bs| && At(bs, branch + 1, bs[branch + 1].offset, bs[branch + 1].size, pos + n)
    ensures pos + n < |Sectors(bs)| && n > 0 ==> OnCourse(bs, if size > n then branch else branch + 1, pos + n)
  {
    SectorsAround(bs, branch);
  }

  /** Such pieces, with a cursor at the start of the branch behind that of the last one. */
  ghost predicate Continues(bs: seq<Branch>, pieces: seq<Branch>, first: nat, start: nat, branch: nat, offset: nat) {
    && AtBranchEnds(bs, pieces, first, start)
    && branch == first + |pieces| < |bs|
    && offset == (if pieces == [] then start else bs[branch].offset)
    && (pieces != [] ==> End(pieces[|pieces| - 1]) == End(bs[branch - 1]))
  }

  lemma OneMorePiece(bs: seq<Branch>, pieces: seq<Branch>, first: nat, start: nat, branch: nat, offset: nat, n: nat)
    requires Continues(bs, pieces, first, start, branch, offset) && offset + n <= End(bs[branch])
    ensures var more := pieces + [Branch(offset, n)];
            && AtBranchEnds(bs, more, first, start)
            && (offset + n == End(bs[branch]) && branch + 1 < |bs| ==>
                  Continues(bs, more, first, start, branch + 1, bs[branch + 1].offset))
  {}

  /** The pieces are the sectors between two positions. */
  ghost predicate Covers(bs: seq<Branch>, pieces: seq<Branch>, start: nat, pos: nat) {
    start <= pos <= |Sectors(bs)| && Sectors(pieces) == Sectors(bs)[start..pos]
  }

  /** What one round of the inner loop adds to the sub-request. */
  lemma TakePiece(bs: seq<Branch>, branches: seq<Branch>, start: nat, branch: nat, offset: nat,
                  size: nat, pos: nat, n: nat)
    requires At(bs, branch, offset, size, pos) && n <= size && Covers(bs, branches, start, pos)
    ensures pos + size <= |Sectors(bs)| && Covers(bs, branches + [Branch(offset, n)], start, pos + n)
    ensures offset + n <= End(bs[branch]) && (size == n ==> offset + n == End(bs[branch]))
  {
    SectorsAround(bs, branch);
    PieceContent(bs, branch, offset, size, pos, n);
    AddPiece(Sectors(bs), branches, start, pos, Branch(offset, n));
  }

  /** The cursor after n sectors have been taken, with `remaining` blocks left: on the same branch, or at
      the start of the next one. */
  method MoveCursor(bs: seq<Branch>, branch: nat, offset: nat, size: nat, n: nat, remaining: nat, ghost pos: nat)
    returns (branch': nat, offset': nat, size': nat)
    requires At(bs, branch, offset, size, pos) && n <= size && pos + n + remaining == |Sectors(bs)|
    ensures At(bs, branch', offset', size', pos + n)
    ensures remaining > 0 && n > 0 ==> OnCourse(bs, branch', pos + n)
    ensures remaining > 0 && n == size ==> branch' == branch + 1 < |bs| && offset' == bs[branch'].offset
    ensures branch <= branch' && (n == 0 && remaining > 0 && size == 0 ==> branch < branch')
  {
    CursorMoves(bs, branch, offset, size, pos, n);
    branch', offset', size' := branch, offset + n, size - n;
    if size' <= 0 && remaining > 0 {
      if |bs| > branch' + 1 {
        branch' := branch' + 1;
        offset' := bs[branch'].offset;
        size' := bs[branch'].size;
      }
    }
  }

  /** One round of the inner loop: the next piece is as much of the branch as the sub-request still takes. */
  method NextPiece(bs: seq<Branch>, branches: seq<Branch>, branch: nat, offset: nat, size: nat, left: nat,
                   remaining: nat, ghost start: nat, ghost pos: nat, ghost first: nat, ghost from: nat)
    returns (branches': seq<Branch>, pieceSize: nat, branch': nat, offset': nat, size': nat)
    requires At(bs, branch, offset, size, pos) && left > 0 && remaining > 0 && pos + remaining == |Sectors(bs)|
    requires Covers(bs, branches, start, pos) && Continues(bs, branches, first, from, branch, offset)
    ensures pieceSize == Min(size, left) <= remaining && branches' == branches + [Branch(offset, pieceSize)]
    ensures At(bs, branch', offset', size', pos + pieceSize) && Covers(bs, branches', start, pos + pieceSize)
    ensures AtBranchEnds(bs, branches', first, from)
    ensures remaining > pieceSize && pieceSize > 0 ==> OnCourse(bs, branch', pos + pieceSize)
    ensures remaining > pieceSize && left > pieceSize ==> Continues(bs, branches', first, from, branch', offset')
    ensures branch <= branch' && (pieceSize == 0 ==> branch < branch')
  {
    if size >= left {
      pieceSize := left;
    } else {
      pieceSize := size;
    }
    TakePiece(bs, branches, start, branch, offset, size, pos, pieceSize);
    OneMorePiece(bs, branches, first, from, branch, offset, pieceSize);
    branches' := branches + [Branch(offset, pieceSize)];
    branch', offset', size' := MoveCursor(bs, branch, offset, size, pieceSize, remaining - pieceSize, pos);
  }

  /** The inner loop: collects pieces until the sub-request is full or the request is used up. The
      cursor (branch, offset, size) and the number of unassigned blocks are updated. */
  method CutSubRequest(bs: seq<Branch>, branch: nat, offset: nat, size: nat, remaining: nat, blocksPerRequest: nat,
                       ghost start: nat)
    returns (branches: seq<Branch>, pieceSize: nat, branch': nat, offset': nat, size': nat, remaining': nat,
             ghost pos: nat)
    requires blocksPerRequest > 0 && remaining > 0
    requires At(bs, branch, offset, size, start) && start + remaining == |Sectors(bs)|
    ensures At(bs, branch', offset', size', pos) && pos + remaining' == |Sectors(bs)|
    ensures pos == Min(start + blocksPerRequest, |Sectors(bs)|)
    ensures remaining' > 0 ==> OnCourse(bs, branch', pos)
    ensures Sectors(branches) == Sectors(bs)[start..pos]
    ensures branches != [] && branches[|branches| - 1].size == pieceSize > 0
    ensures AtBranchEnds(bs, branches, branch, offset)
  {
    branch', offset', size', remaining', pos := branch, offset, size, remaining, start;
    branches, pieceSize := [], 0;
    var subReqRemainingBlocks: nat := blocksPerRequest;
    while subReqRemainingBlocks > 0 && remaining' > 0
      invariant At(bs, branch', offset', size', pos)
      invariant pos + remaining' == |Sectors(bs)|
      invariant pos + subReqRemainingBlocks == start + blocksPerRequest
      invariant subReqRemainingBlocks == 0 && remaining' > 0 ==> OnCourse(bs, branch', pos)
      invariant Covers(bs, branches, start, pos)
      invariant branches == [] ==> pos == start
      invariant branches != [] ==> branches[|branches| - 1].size == pieceSize
      invariant subReqRemainingBlocks == 0 || remaining' == 0 ==> pieceSize > 0
      invariant AtBranchEnds(bs, branches, branch, offset)
      invariant subReqRemainingBlocks > 0 && remaining' > 0 ==>
                    Continues(bs, branches, branch, offset, branch', offset')
      decreases remaining', |bs| - branch'
    {
      branches, pieceSize, branch', offset', size' :=
        NextPiece(bs, branches, branch', offset', size', subReqRemainingBlocks, remaining', start, pos, branch, offset);
      remaining' := remaining' - pieceSize;
      subReqRemainingBlocks := subReqRemainingBlocks - pieceSize;
      pos := pos + pieceSize;
    }
  }

  /** What the inner loop collects from the cursor on is the next sub-request. */
  lemma NextSubRequest(bs: seq<Branch>, branch: nat, offset: nat, size: nat, start: nat, sub: SubRequest,
                       bpr: nat, disks: nat)
    requires bpr > 0 && disks > 0 && start < |Sectors(bs)|
    requires At(bs, branch, offset, size, start) && OnCourse(bs, branch, start)
    requires AtBranchEnds(bs, sub.branches, branch, offset)
    requires Sectors(sub.branches) == Sectors(bs)[start..Min(start + bpr, |Sectors(bs)|)]
    requires sub.branches != [] && sub.branches[|sub.branches| - 1].size > 0 && sub.disk == (offset / bpr) % disks
    requires sub.fileSize == sub.branches[|sub.branches| - 1].size * BYTES_PER_SECTOR
    ensures IsCut(bs, sub.branches, start) && IsPiece(bs, sub, sub.traceIndex, start, bpr, disks)
  {
    CursorIs(bs, branch, start);
  }

  lemma NextStart(n: nat, bpr: nat)
    ensures (n + 1) * bpr == n * bpr + bpr
  {}

  /** The sub-requests made so far, which cover `cut` sectors, or all. */
  ghost predicate SplitSoFar(bs: seq<Branch>, subs: seq<SubRequest>, cut: nat, bpr: nat, disks: nat)
    requires bpr > 0 && disks > 0
  {
    && cut == |subs| * bpr && cut < |Sectors(bs)| + bpr
    && CutAtBranches(bs, subs, bpr)
    && forall i :: 0 <= i < |subs| ==> IsPiece(bs, subs[i], i, i * bpr, bpr, disks)
  }

  lemma OneMoreSub(bs: seq<Branch>, subs: seq<SubRequest>, cut: nat, sub: SubRequest, bpr: nat, disks: nat)
    requires bpr > 0 && disks > 0 && SplitSoFar(bs, subs, cut, bpr, disks)
    requires IsPiece(bs, sub, |subs|, cut, bpr, disks) && IsCut(bs, sub.branches, cut)
    ensures SplitSoFar(bs, subs + [sub], cut + bpr, bpr, disks)
  {
    NextStart(|subs|, bpr);
    assert forall i :: 0 <= i < |subs| ==> (subs + [sub])[i] == subs[i];
  }

  lemma AllIsSplit(bs: seq<Branch>, subs: seq<SubRequest>, cut: nat, bpr: nat, disks: nat)
    requires bpr > 0 && disks > 0 && SplitSoFar(bs, subs, cut, bpr, disks) && cut >= |Sectors(bs)|
    ensures IsSplit(bs, subs, bpr, disks) && CutAtBranches(bs, subs, bpr)
  {
    if subs != [] {
      NextStart(|subs| - 1, bpr);
    }
  }

  /** The stripes of the request are cut off one after the other. Every request gets `blocksPerRequest`
      sectors, taken from as many branches as that needs; the last one gets what is left. */
  method SplitRequest(file: File, blocksPerRequest: nat, numDisks: nat) returns (r: Result<seq<SubRequest>, Error>)
    requires blocksPerRequest > 0 && numDisks > 0
    ensures r.Err? <==> file.branchList == []
    ensures r.Ok? ==> IsSplit(file.branchList, r.value, blocksPerRequest, numDisks)
    ensures r.Ok? ==> CutAtBranches(file.branchList, r.value, blocksPerRequest)
  {
    var bs := file.branchList;
    var remainingBlocks := file.GetTotalSectors();
    var currentBranch: nat := 0;
    if |bs| <= currentBranch {
      return Err(BranchOutOfBounds);
    }
    var currentOffset: nat, currentBranchSize: nat := bs[0].offset, bs[0].size;
    var msgVector: seq<SubRequest> := [];
    ghost var pos: nat, cut: nat := 0, 0;
    while remainingBlocks > 0
      invariant At(bs, currentBranch, currentOffset, currentBranchSize, pos)
      invariant pos + remainingBlocks == |Sectors(bs)| && pos == Min(cut, |Sectors(bs)|)
      invariant remainingBlocks > 0 ==> OnCourse(bs, currentBranch, pos)
      invariant SplitSoFar(bs, msgVector, cut, blocksPerRequest, numDisks)
    {
      var disk := (currentOffset / blocksPerRequest) % numDisks;
      ghost var (branch, offset, size) := (currentBranch, currentOffset, currentBranchSize);
      var branches, currentSubRequestSize;
      branches, currentSubRequestSize, currentBranch, currentOffset, currentBranchSize, remainingBlocks, pos :=
        CutSubRequest(bs, currentBranch, currentOffset, currentBranchSize, remainingBlocks, blocksPerRequest, pos);
      var sub := SubRequest(disk, branches, currentSubRequestSize * BYTES_PER_SECTOR, |msgVector|);
      NextSubRequest(bs, branch, offset, size, cut, sub, blocksPerRequest, numDisks);
      OneMoreSub(bs, msgVector, cut, sub, blocksPerRequest, numDisks);
      msgVector := msgVector + [sub];
      cut := cut + blocksPerRequest;
    }
    AllIsSplit(bs, msgVector, cut, blocksPerRequest, numDisks);
    r := Ok(msgVector);
  }

  // ---------------------------------------------------------------- entering the sub-requests

  /** Why a request is not split: it has no branch, or the table refuses a sub-request. */
  datatype SplitError = NoBranch | Refused(error: Arrivals.Error)

  /** The messages of the sub-requests, numbered from `firstId` on, each with its trace index. */
  function Links(subs: seq<SubRequest>, firstId: nat): (links: seq<Arrivals.Message>)
    ensures |links| == |subs|
  {
    seq(|subs|, i requires 0 <= i < |subs| => Arrivals.Message(firstId + i, subs[i].traceIndex, false))
  }

  class SmsRaid0 {
    const blocksPerRequest: nat
    const numDisks: nat
    const requests: SplittingMessageSystem

    ghost predicate Valid()
      reads requests
    {
      blocksPerRequest > 0 && numDisks > 0 && requests.Valid()
    }

    constructor (strideSize: nat, numBlockServers: nat)
      requires strideSize >= BYTES_PER_SECTOR && numBlockServers > 0
      ensures Valid() && fresh(requests) && requests.Table() == []
      ensures blocksPerRequest == strideSize / BYTES_PER_SECTOR && numDisks == numBlockServers
    {
      blocksPerRequest := strideSize / BYTES_PER_SECTOR;
      numDisks := numBlockServers;
      requests := new SplittingMessageSystem();
    }

    /** Splits request number `id`, and enters its sub-requests in the table. */
    method Split(id: nat, file: File, firstId: nat) returns (r: Result<seq<SubRequest>, SplitError>)
      requires Valid()
      modifies requests, requests.requestVector
      ensures Valid()
      ensures r == Err(NoBranch) <==> file.branchList == []
      ensures r == Err(NoBranch) ==> requests.Table() == old(requests.Table())
      ensures r.Ok? ==> IsSplit(file.branchList, r.value, blocksPerRequest, numDisks)
      ensures r.Ok? ==> CutAtBranches(file.branchList, r.value, blocksPerRequest)
      ensures r.Ok? ==>
                Arrivals.Execute(old(requests.Table()), Entries(id, Links(r.value, firstId))) == Ok(requests.Table())
      ensures old(Arrivals.Find(requests.Table(), id) == |requests.Table()|) && file.branchList != [] ==>
                r.Ok? && requests.Table() == old(requests.Table()) + [Linked(id, Links(r.value, firstId), |r.value|)]
    {
      var split := SplitRequest(file, blocksPerRequest, numDisks);
      if split.Err? {
        return Err(NoBranch);
      }
      var links := Links(split.value, firstId);
      if Arrivals.Find(requests.Table(), id) == |requests.Table()| {
        NewParentIsLinked(requests.Table(), id, links);
      }
      var entered := requests.Register(id, links);
      r := if entered.Ok? then Ok(split.value) else Err(Refused(entered.error));
    }
  }

  /** Slot i of a newly entered request holds sub-request i, whose trace ends with the number i. */
  lemma SlotsHoldTheirSubRequests(bs: seq<Branch>, subs: seq<SubRequest>, bpr: nat, disks: nat, id: nat,
                                  firstId: nat, i: nat)
    requires bpr > 0 && disks > 0 && IsSplit(bs, subs, bpr, disks) && i < |subs|
    ensures Linked(id, Links(subs, firstId), |subs|).slots[i] == Some(Arrivals.Message(firstId + i, i, false))
  {
    assert IsPiece(bs, subs[i], i, i * bpr, bpr, disks);
  }
}
