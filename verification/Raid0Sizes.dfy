/** How RAID-0 cuts stripes into pieces, and what that does to the byte sizes of the sub-requests. */
module Raid0Sizes {
  import opened Arith
  import opened BlockFile
  import opened Raid0
  import opened Raid0Striping

  // ---------------------------------------------------------------- where the stripes are cut

  lemma {:induction false} TotalPositive(bs: seq<Branch>)
    requires bs != [] && bs[|bs| - 1].size > 0
    ensures Total(bs) > 0
  {
    if |bs| > 1 {
      TotalPositive(bs[1..]);
    }
  }

  lemma TotalOfSplit(bs: seq<Branch>, k: nat)
    requires k < |bs|
    ensures Total(bs) == Total(bs[..k]) + bs[k].size + Total(bs[k + 1..])
  {
    assert bs == bs[..k] + [bs[k]] + bs[k + 1..];
    SectorsConcat(bs[..k] + [bs[k]], bs[k + 1..]);
    SectorsAppend(bs[..k], bs[k]);
  }

  /** Two cuts agree up to the last piece of the shorter one. */
  lemma SamePiecesBefore(bs: seq<Branch>, p: seq<Branch>, q: seq<Branch>, first: nat, offset: nat)
    requires AtBranchEnds(bs, p, first, offset) && AtBranchEnds(bs, q, first, offset) && 0 < |p| <= |q|
    ensures var k := |p| - 1; p[..k] == q[..k] && p[k].offset == q[k].offset && (|p| < |q| ==> p[k].size <= q[k].size)
  {
    forall i | 0 <= i < |p| - 1 ensures p[i] == q[i] {
      assert p[i].offset == q[i].offset && End(p[i]) == End(q[i]);
    }
  }

  /** Fewer pieces of the same cut are shorter in all. */
  lemma FewerPiecesAreShorter(bs: seq<Branch>, p: seq<Branch>, q: seq<Branch>, first: nat, offset: nat)
    requires AtBranchEnds(bs, p, first, offset) && AtBranchEnds(bs, q, first, offset)
    requires 0 < |p| < |q| && q[|q| - 1].size > 0
    ensures Total(p) < Total(q)
  {
    var k := |p| - 1;
    SamePiecesBefore(bs, p, q, first, offset);
    ShorterInAll(p, q, k);
  }

  lemma ShorterInAll(p: seq<Branch>, q: seq<Branch>, k: nat)
    requires |p| == k + 1 < |q| && p[..k] == q[..k] && p[k].size <= q[k].size && q[|q| - 1].size > 0
    ensures Total(p) < Total(q)
  {
    assert p[k + 1..] == [];
    TotalOfSplit(p, k);
    TotalOfSplit(q, k);
    TotalPositive(q[k + 1..]);
  }

  lemma AsManyPieces(bs: seq<Branch>, p: seq<Branch>, q: seq<Branch>, first: nat, offset: nat)
    requires AtBranchEnds(bs, p, first, offset) && AtBranchEnds(bs, q, first, offset)
    requires 0 < |p| == |q| && Total(p) == Total(q)
    ensures p == q
  {
    var k := |p| - 1;
    SamePiecesBefore(bs, p, q, first, offset);
    TotalOfSplit(p, k);
    TotalOfSplit(q, k);
    assert p[k + 1..] == [] && q[k + 1..] == [];
    assert p[k] == q[k];
    assert p == p[..k] + [p[k]] && q == q[..k] + [q[k]];
  }

  lemma PiecesAreDetermined(bs: seq<Branch>, p: seq<Branch>, q: seq<Branch>, first: nat, offset: nat)
    requires AtBranchEnds(bs, p, first, offset) && AtBranchEnds(bs, q, first, offset) && p != [] && q != []
    requires p[|p| - 1].size > 0 && q[|q| - 1].size > 0 && Total(p) == Total(q)
    ensures p == q
  {
    if |p| < |q| {
      FewerPiecesAreShorter(bs, p, q, first, offset);
    } else if |q| < |p| {
      FewerPiecesAreShorter(bs, q, p, first, offset);
    } else {
      AsManyPieces(bs, p, q, first, offset);
    }
  }

  /** Nothing about the sub-requests is left open: what the splitter promises has one result. */
  lemma SplitIsDetermined(bs: seq<Branch>, subs: seq<SubRequest>, subs': seq<SubRequest>, bpr: nat, disks: nat)
    requires bpr > 0 && disks > 0
    requires IsSplit(bs, subs, bpr, disks) && CutAtBranches(bs, subs, bpr)
    requires IsSplit(bs, subs', bpr, disks) && CutAtBranches(bs, subs', bpr)
    ensures subs == subs'
  {
    SameNumber(bs, subs, subs', bpr, disks);
    forall i | 0 <= i < |subs| ensures subs[i] == subs'[i] {
      SubIsDetermined(bs, subs[i], subs'[i], i, i * bpr, bpr, disks);
    }
  }

  lemma SameNumber(bs: seq<Branch>, subs: seq<SubRequest>, subs': seq<SubRequest>, bpr: nat, disks: nat)
    requires bpr > 0 && disks > 0 && IsSplit(bs, subs, bpr, disks) && IsSplit(bs, subs', bpr, disks)
    ensures |subs| == |subs'|
  {
    SplitIsExact(bs, subs, bpr, disks);
    SplitIsExact(bs, subs', bpr, disks);
  }

  lemma SubIsDetermined(bs: seq<Branch>, sub: SubRequest, sub': SubRequest, i: nat, start: nat, bpr: nat, disks: nat)
    requires bpr > 0 && disks > 0
    requires IsPiece(bs, sub, i, start, bpr, disks) && IsCut(bs, sub.branches, start)
    requires IsPiece(bs, sub', i, start, bpr, disks) && IsCut(bs, sub'.branches, start)
    ensures sub == sub'
  {
    TotalIsLength(sub.branches);
    TotalIsLength(sub'.branches);
    PiecesAreDetermined(bs, sub.branches, sub'.branches, FirstBranch(bs, start), Cursor(bs, start));
  }

  // ---------------------------------------------------------------- the byte size of a sub-request

  lemma {:induction false} CursorIsInFirstBranch(bs: seq<Branch>, pos: nat)
    requires pos < |Sectors(bs)|
    ensures var k := FirstBranch(bs, pos);
            && k < |bs| && Before(bs, k) <= pos <= Before(bs, k) + bs[k].size
            && Cursor(bs, pos) == bs[k].offset + (pos - Before(bs, k))
  {
    if !(pos == 0 || pos < bs[0].size) {
      var rest := bs[1..];
      CursorIsInFirstBranch(rest, pos - bs[0].size);
      BeforeShifted(bs, FirstBranch(bs, pos));
    }
  }

  lemma BeforeShifted(bs: seq<Branch>, k: nat)
    requires 0 < k <= |bs|
    ensures Before(bs, k) == bs[0].size + Before(bs[1..], k - 1)
  {
    assert bs[..k][0] == bs[0] && bs[..k][1..] == bs[1..][..k - 1];
  }

  /** Every piece but the first begins at the position where its branch begins. */
  lemma {:induction false} PieceBeginsAtBranch(bs: seq<Branch>, pieces: seq<Branch>, start: nat, i: nat)
    requires IsCut(bs, pieces, start) && 0 < i < |pieces|
    ensures start + |Sectors(pieces[..i])| == Before(bs, FirstBranch(bs, start) + i)
  {
    var first := FirstBranch(bs, start);
    CursorIsInFirstBranch(bs, start);
    SectorsAround(bs, first + i - 1);
    assert pieces[..i] == pieces[..i - 1] + [pieces[i - 1]];
    SectorsAppend(pieces[..i - 1], pieces[i - 1]);
    if i > 1 {
      PieceBeginsAtBranch(bs, pieces, start, i - 1);
    } else {
      assert pieces[..0] == [];
    }
  }

  lemma {:induction false} BeforeAscends(bs: seq<Branch>, j: nat, k: nat)
    requires j <= k <= |bs|
    ensures Before(bs, j) <= Before(bs, k) <= |Sectors(bs)|
  {
    if j < k {
      SectorsAround(bs, k - 1);
      BeforeAscends(bs, j, k - 1);
    } else {
      assert bs == bs[..k] + bs[k..];
      SectorsConcat(bs[..k], bs[k..]);
    }
  }

  /** A branch ends, or begins, strictly between two positions of the list. */
  ghost predicate BoundaryBetween(bs: seq<Branch>, from: nat, to: nat) {
    exists k :: 0 <= k <= |bs| && from < Before(bs, k) < to
  }

  /** The program gives a sub-request the byte size of its last piece. */
  ghost predicate SizeIsRight(sub: SubRequest) {
    sub.fileSize == |Sectors(sub.branches)| * BYTES_PER_SECTOR
  }

  /** The last piece is what is left behind the others. */
  lemma AllButLast(pieces: seq<Branch>)
    requires pieces != []
    ensures |Sectors(pieces)| == |Sectors(pieces[..|pieces| - 1])| + pieces[|pieces| - 1].size
  {
    var front := pieces[..|pieces| - 1];
    assert pieces == front + [pieces[|pieces| - 1]];
    SectorsAppend(front, pieces[|pieces| - 1]);
  }

  /** The last piece begins where the stripe or its branch begins. */
  lemma LastPieceBegins(bs: seq<Branch>, pieces: seq<Branch>, start: nat, m: nat)
    requires IsCut(bs, pieces, start) && m == FirstBranch(bs, start) + |pieces| - 1
    ensures m < |bs| && start + |Sectors(pieces[..|pieces| - 1])| == Max(start, Before(bs, m))
    ensures |pieces| == 1 ==> Before(bs, m) <= start && pieces[0].offset == bs[m].offset + (start - Before(bs, m))
    ensures |pieces| > 1 ==> start <= Before(bs, m) && pieces[|pieces| - 1].offset == bs[m].offset
  {
    CursorIsInFirstBranch(bs, start);
    if |pieces| > 1 {
      PieceBeginsAtBranch(bs, pieces, start, |pieces| - 1);
    } else {
      assert pieces[..0] == [];
    }
  }

  /** It lies in its branch m and reaches the end of the stripe. */
  lemma LastPiece(bs: seq<Branch>, pieces: seq<Branch>, start: nat, end: nat) returns (m: nat)
    requires IsCut(bs, pieces, start) && start < end <= |Sectors(bs)| && |Sectors(pieces)| == end - start
    ensures m < |bs| && Before(bs, m) < end <= Before(bs, m + 1)
    ensures pieces[|pieces| - 1].size == end - Max(start, Before(bs, m))
  {
    m := FirstBranch(bs, start) + |pieces| - 1;
    AllButLast(pieces);
    LastPieceBegins(bs, pieces, start, m);
    SectorsAround(bs, m);
  }

  /** A stripe that ends in branch m is cut exactly if that branch begins inside it. */
  lemma BoundaryBeforeLast(bs: seq<Branch>, m: nat, start: nat, end: nat)
    requires m < |bs| && Before(bs, m) < end <= Before(bs, m + 1)
    ensures BoundaryBetween(bs, start, end) <==> start < Before(bs, m)
  {
    forall k | 0 <= k <= |bs| ensures start < Before(bs, k) < end ==> start < Before(bs, m) {
      if k <= m {
        BeforeAscends(bs, k, m);
      } else {
        BeforeAscends(bs, m + 1, k);
      }
    }
  }

  /** That is right exactly if no branch boundary lies inside the stripe. */
  lemma SizeRightIffUncut(bs: seq<Branch>, sub: SubRequest, start: nat, end: nat)
    requires IsCut(bs, sub.branches, start) && start < end <= |Sectors(bs)| && |Sectors(sub.branches)| == end - start
    requires sub.fileSize == sub.branches[|sub.branches| - 1].size * BYTES_PER_SECTOR
    ensures SizeIsRight(sub) <==> !BoundaryBetween(bs, start, end)
  {
    var m := LastPiece(bs, sub.branches, start, end);
    BoundaryBeforeLast(bs, m, start, end);
  }

  lemma PieceSizeRightIffUncut(bs: seq<Branch>, sub: SubRequest, i: nat, start: nat, bpr: nat, disks: nat)
    requires bpr > 0 && disks > 0 && IsPiece(bs, sub, i, start, bpr, disks) && IsCut(bs, sub.branches, start)
    ensures SizeIsRight(sub) <==> !BoundaryBetween(bs, start, Min(start + bpr, |Sectors(bs)|))
  {
    SizeRightIffUncut(bs, sub, start, Min(start + bpr, |Sectors(bs)|));
  }

  /** Every boundary between branches with sectors on both sides lies between two stripes. */
  ghost predicate BoundariesBetweenStripes(bs: seq<Branch>, bpr: nat)
    requires bpr > 0
  {
    forall k :: 0 <= k <= |bs| && 0 < Before(bs, k) < |Sectors(bs)| ==> Before(bs, k) % bpr == 0
  }

  ghost predicate AllSizesRight(subs: seq<SubRequest>) {
    forall i :: 0 <= i < |subs| ==> SizeIsRight(subs[i])
  }

  lemma NotInsideStripe(x: nat, i: nat, bpr: nat)
    requires bpr > 0 && i * bpr < x < i * bpr + bpr
    ensures x % bpr != 0
  {
    QuotientUnique(bpr, i, x - i * bpr);
  }

  lemma StripeIsUncut(bs: seq<Branch>, start: nat, i: nat, bpr: nat)
    requires bpr > 0 && BoundariesBetweenStripes(bs, bpr) && start == i * bpr
    ensures !BoundaryBetween(bs, start, Min(start + bpr, |Sectors(bs)|))
  {
    if k :| 0 <= k <= |bs| && start < Before(bs, k) < Min(start + bpr, |Sectors(bs)|) {
      NotInsideStripe(Before(bs, k), i, bpr);
    }
  }

  lemma NotBetween(bs: seq<Branch>, k: nat, from: nat, to: nat)
    requires k <= |bs|
    ensures !BoundaryBetween(bs, from, to) ==> Before(bs, k) <= from || to <= Before(bs, k)
  {}

  lemma NoBoundaryBehind(bs: seq<Branch>, sub: SubRequest, i: nat, start: nat, bpr: nat, disks: nat, k: nat)
    requires bpr > 0 && disks > 0 && IsPiece(bs, sub, i, start, bpr, disks) && IsCut(bs, sub.branches, start)
    requires SizeIsRight(sub) && k <= |bs| && start <= Before(bs, k) < start + bpr && Before(bs, k) < |Sectors(bs)|
    ensures Before(bs, k) == start
  {
    PieceSizeRightIffUncut(bs, sub, i, start, bpr, disks);
    NotBetween(bs, k, start, Min(start + bpr, |Sectors(bs)|));
  }

  lemma BoundaryIsBetweenStripes(bs: seq<Branch>, subs: seq<SubRequest>, bpr: nat, disks: nat, k: nat)
    requires bpr > 0 && disks > 0 && IsSplit(bs, subs, bpr, disks) &&
             CutAtBranches(bs, subs, bpr) && AllSizesRight(subs)
    requires k <= |bs| && 0 < Before(bs, k) < |Sectors(bs)|
    ensures Before(bs, k) % bpr == 0
  {
    var i, start := StripeOf(bs, subs, bpr, disks, Before(bs, k));
    NoBoundaryBehind(bs, subs[i], i, start, bpr, disks, k);
  }

  /** The sub-request that position p falls in, and where its stripe starts. */
  lemma StripeOf(bs: seq<Branch>, subs: seq<SubRequest>, bpr: nat, disks: nat, p: nat) returns (i: nat, start: nat)
    requires bpr > 0 && disks > 0 && IsSplit(bs, subs, bpr, disks) && CutAtBranches(bs, subs, bpr) && p < |Sectors(bs)|
    ensures i < |subs| && start <= p < start + bpr && start % bpr == 0
    ensures IsPiece(bs, subs[i], i, start, bpr, disks) && IsCut(bs, subs[i].branches, start)
  {
    i, start := p / bpr, p / bpr * bpr;
    DivMod(p, bpr);
    SectorFindsItsPiece(bs, subs, bpr, disks, p);
    QuotientUnique(bpr, i, 0);
  }

  /** The exact condition, on the request alone: all sub-requests get the right byte size if and only if
      no branch boundary lies inside a stripe. */
  lemma SizesRightIffBoundariesBetweenStripes(bs: seq<Branch>, subs: seq<SubRequest>, bpr: nat, disks: nat)
    requires bpr > 0 && disks > 0 && IsSplit(bs, subs, bpr, disks) && CutAtBranches(bs, subs, bpr)
    ensures AllSizesRight(subs) <==> BoundariesBetweenStripes(bs, bpr)
  {
    if BoundariesBetweenStripes(bs, bpr) {
      forall i | 0 <= i < |subs| ensures SizeIsRight(subs[i]) {
        StripeIsUncut(bs, i * bpr, i, bpr);
        PieceSizeRightIffUncut(bs, subs[i], i, i * bpr, bpr, disks);
      }
    }
    if AllSizesRight(subs) {
      forall k | 0 <= k <= |bs| && 0 < Before(bs, k) < |Sectors(bs)| ensures Before(bs, k) % bpr == 0 {
        BoundaryIsBetweenStripes(bs, subs, bpr, disks, k);
      }
    }
  }

  /** Two branches of half a stripe each: the one sub-request of the split gets half its size. */
  lemma HalfStripeSizeIsWrong()
    ensures var bs := [Branch(0, 4), Branch(100, 4)];
            var subs := [SubRequest(0, bs, 4 * BYTES_PER_SECTOR, 0)];
            IsSplit(bs, subs, 8, 1) && CutAtBranches(bs, subs, 8) && !AllSizesRight(subs)
  {
    var bs := [Branch(0, 4), Branch(100, 4)];
    var sub := SubRequest(0, bs, 4 * BYTES_PER_SECTOR, 0);
    SectorsAround(bs, 0);
    SectorsAround(bs, 1);
    assert bs[..0] == [];
    assert Before(bs, 1) == 4 && |Sectors(bs)| == 8;
    assert Sectors(bs)[0..8] == Sectors(bs);
    assert IsPiece(bs, sub, 0, 0, 8, 1) && IsCut(bs, bs, 0);
    var subs := [sub];
    assert subs[0] == sub && !SizeIsRight(subs[0]);
  }
}
