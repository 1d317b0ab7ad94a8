/** What a RAID-0 split means: nothing is lost or reordered, and when every sector reaches its disk. */
module Raid0Striping {
  import opened Arith
  import opened BlockFile
  import opened Raid0

  /** The sectors of all sub-requests, one sub-request after the other. */
  function AllSectors(subs: seq<SubRequest>): seq<nat> {
    if subs == [] then []
    else AllSectors(subs[..|subs| - 1]) + Sectors(subs[|subs| - 1].branches)
  }

  lemma {:induction false} PrefixSectors(bs: seq<Branch>, subs: seq<SubRequest>, n: nat, bpr: nat, disks: nat)
    requires bpr > 0 && disks > 0 && IsSplit(bs, subs, bpr, disks) && n <= |subs|
    ensures AllSectors(subs[..n]) == Sectors(bs)[..Min(n * bpr, |Sectors(bs)|)]
  {
    if n > 0 {
      PrefixSectors(bs, subs, n - 1, bpr, disks);
      assert subs[..n][..n - 1] == subs[..n - 1];
      NextStart(n - 1, bpr);
      var (all, start) := (Sectors(bs), (n - 1) * bpr);
      assert IsPiece(bs, subs[n - 1], n - 1, start, bpr, disks);
      JoinSlices(all, 0, start, Min(start + bpr, |all|));
    }
  }

  /** Splitting preserves meaning: the pieces are the parent's sectors, in order, and their number is
      the size over the stripe length, rounded up. */
  lemma SplitIsExact(bs: seq<Branch>, subs: seq<SubRequest>, bpr: nat, disks: nat)
    requires bpr > 0 && disks > 0 && IsSplit(bs, subs, bpr, disks)
    ensures AllSectors(subs) == Sectors(bs)
    ensures |subs| == (|Sectors(bs)| + bpr - 1) / bpr
  {
    PrefixSectors(bs, subs, |subs|, bpr, disks);
    assert subs[..|subs|] == subs;
    var n := |subs|;
    if n > 0 {
      NextStart(n - 1, bpr);
      QuotientUnique(bpr, n, |Sectors(bs)| + bpr - 1 - n * bpr);
    } else {
      QuotientUnique(bpr, 0, bpr - 1);
    }
  }

  /** Every sub-request but the last is a full stripe. */
  lemma FullStripes(bs: seq<Branch>, subs: seq<SubRequest>, bpr: nat, disks: nat, i: nat)
    requires bpr > 0 && disks > 0 && IsSplit(bs, subs, bpr, disks) && i + 1 < |subs|
    ensures |Sectors(subs[i].branches)| == bpr
  {
    assert IsPiece(bs, subs[i], i, i * bpr, bpr, disks);
    NextStart(i, bpr);
    MulStrict(i + 1, |subs| - 1, bpr);
  }

  lemma PieceHolds(bs: seq<Branch>, sub: SubRequest, i: nat, start: nat, bpr: nat, disks: nat, k: nat)
    requires bpr > 0 && disks > 0 && IsPiece(bs, sub, i, start, bpr, disks) && k < bpr && start + k < |Sectors(bs)|
    ensures k < |Sectors(sub.branches)| && Sectors(bs)[start + k] == Sectors(sub.branches)[k]
  {}

  lemma StripeExists(n: nat, i: nat, p: nat, size: nat, bpr: nat)
    requires i * bpr <= p < size <= n * bpr
    ensures i < n
  {
    MulStrict(n, i, bpr);
  }

  /** The parent's p-th sector travels in sub-request p / bpr. */
  lemma SectorFindsItsPiece(bs: seq<Branch>, subs: seq<SubRequest>, bpr: nat, disks: nat, p: nat)
    requires bpr > 0 && disks > 0 && IsSplit(bs, subs, bpr, disks) && p < |Sectors(bs)|
    ensures var (i, k) := (p / bpr, p % bpr);
            i < |subs| && k < |Sectors(subs[i].branches)| && Sectors(bs)[p] == Sectors(subs[i].branches)[k]
  {
    SectorInPiece(bs, subs, bpr, disks, p, StartOf(p, bpr), p / bpr, p % bpr);
  }

  /** Where the stripe of position p starts. */
  function StartOf(p: nat, bpr: nat): (start: nat)
    requires bpr > 0
    ensures start == p / bpr * bpr && start + p % bpr == p && p % bpr < bpr
  {
    DivMod(p, bpr);
    p - p % bpr
  }

  lemma SectorInPiece(bs: seq<Branch>, subs: seq<SubRequest>, bpr: nat, disks: nat, p: nat, start: nat, i: nat, k: nat)
    requires bpr > 0 && disks > 0 && IsSplit(bs, subs, bpr, disks) && p < |Sectors(bs)|
    requires start == i * bpr && k < bpr && p == start + k
    ensures i < |subs| && k < |Sectors(subs[i].branches)| && Sectors(bs)[p] == Sectors(subs[i].branches)[k]
  {
    var sub := PieceAt(bs, subs, bpr, disks, start, i);
    PieceHolds(bs, sub, i, start, bpr, disks, k);
  }

  lemma PieceAt(bs: seq<Branch>, subs: seq<SubRequest>, bpr: nat, disks: nat, start: nat, i: nat)
    returns (sub: SubRequest)
    requires bpr > 0 && disks > 0 && IsSplit(bs, subs, bpr, disks) && start == i * bpr < |Sectors(bs)|
    ensures i < |subs| && sub == subs[i] && IsPiece(bs, sub, i, start, bpr, disks)
  {
    StripeExists(|subs|, i, start, |Sectors(bs)|, bpr);
    sub := subs[i];
  }

  // ---------------------------------------------------------------- when sectors reach their disk

  /** Branches begin on stripe boundaries, and all but the last one that matters also end on one. */
  ghost predicate Aligned(bs: seq<Branch>, bpr: nat)
    requires bpr > 0
  {
    bs != [] ==>
      && bs[0].offset % bpr == 0
      && (bs[0].size % bpr == 0 || Sectors(bs[1..]) == [])
      && Aligned(bs[1..], bpr)
  }

  /** An empty branch at which a stripe may begin points to the disk of the sector that follows it.
      `boundary` says that a stripe may begin at the first branch. */
  ghost predicate EmptiesHarmless(bs: seq<Branch>, boundary: bool, bpr: nat, disks: nat)
    requires bpr > 0 && disks > 0
  {
    bs != [] ==>
      if bs[0].size > 0 then EmptiesHarmless(bs[1..], true, bpr, disks)
      else
        && (boundary && Sectors(bs[1..]) != [] ==>
            Disk(bs[0].offset, bpr, disks) == Disk(Sectors(bs[1..])[0], bpr, disks))
        && EmptiesHarmless(bs[1..], false, bpr, disks)
  }

  ghost predicate RightAt(bs: seq<Branch>, pos: nat, bpr: nat, disks: nat)
    requires bpr > 0 && disks > 0 && pos < |Sectors(bs)|
  {
    Disk(Cursor(bs, pos), bpr, disks) == Disk(Sectors(bs)[pos], bpr, disks)
  }

  ghost predicate RightFrom(bs: seq<Branch>, boundary: bool, bpr: nat, disks: nat)
    requires bpr > 0 && disks > 0
  {
    forall pos: nat :: pos < |Sectors(bs)| && pos % bpr == 0 && (boundary || pos > 0) ==> RightAt(bs, pos, bpr, disks)
  }

  lemma RightAfterBranch(bs: seq<Branch>, bpr: nat, disks: nat)
    requires bpr > 0 && disks > 0 && bs != [] && bs[0].size > 0
    requires bs[0].size % bpr == 0 || Sectors(bs[1..]) == []
    ensures RightFrom(bs, true, bpr, disks) <==> RightFrom(bs[1..], true, bpr, disks)
  {
    var (size, rest) := (bs[0].size, bs[1..]);
    forall pos: nat | pos < |Sectors(rest)| && pos % bpr == 0 && RightFrom(bs, true, bpr, disks)
      ensures RightAt(rest, pos, bpr, disks)
    {
      MultiplesAddUp(size, pos, bpr);
      assert RightAt(bs, size + pos, bpr, disks);
    }
    forall pos: nat | pos < |Sectors(bs)| && pos % bpr == 0 && RightFrom(rest, true, bpr, disks)
      ensures RightAt(bs, pos, bpr, disks)
    {
      if pos >= size {
        MultiplesAddUp(size, pos - size, bpr);
        assert RightAt(rest, pos - size, bpr, disks);
      }
    }
  }

  lemma RightAfterEmpty(bs: seq<Branch>, boundary: bool, bpr: nat, disks: nat)
    requires bpr > 0 && disks > 0 && bs != [] && bs[0].size == 0
    ensures Sectors(bs) == Sectors(bs[1..])
    ensures RightFrom(bs, boundary, bpr, disks) <==>
              && (boundary && Sectors(bs) != [] ==> RightAt(bs, 0, bpr, disks))
              && RightFrom(bs[1..], false, bpr, disks)
  {
    var rest := bs[1..];
    assert Sectors(bs) == Sectors(rest);
    forall pos: nat | 0 < pos < |Sectors(bs)| ensures RightAt(bs, pos, bpr, disks) == RightAt(rest, pos, bpr, disks) {
      assert Cursor(bs, pos) == Cursor(rest, pos);
    }
  }

  lemma {:induction false} HarmlessIsRight(bs: seq<Branch>, boundary: bool, bpr: nat, disks: nat)
    requires bpr > 0 && disks > 0 && Aligned(bs, bpr)
    ensures EmptiesHarmless(bs, boundary, bpr, disks) <==> RightFrom(bs, boundary, bpr, disks)
  {
    if bs != [] {
      if bs[0].size > 0 {
        HarmlessIsRight(bs[1..], true, bpr, disks);
        RightAfterBranch(bs, bpr, disks);
        assert Sectors(bs) != [] && RightAt(bs, 0, bpr, disks);
        assert RightFrom(bs, boundary, bpr, disks) <==> RightFrom(bs, true, bpr, disks);
      } else {
        HarmlessIsRight(bs[1..], false, bpr, disks);
        RightAfterEmpty(bs, boundary, bpr, disks);
      }
    }
  }

  /** In an aligned list the sectors of one slice lie on one stripe of the volume. */
  lemma {:induction false} SliceOnOneStripe(bs: seq<Branch>, pos: nat, p: nat, bpr: nat)
    requires bpr > 0 && Aligned(bs, bpr) && pos % bpr == 0 && pos <= p < pos + bpr && p < |Sectors(bs)|
    ensures Sectors(bs)[p] / bpr == Sectors(bs)[pos] / bpr
  {
    var (b, rest) := (bs[0], bs[1..]);
    if pos < b.size {
      if Sectors(rest) != [] {
        MultiplesApart(pos, b.size, bpr);
      }
      MultiplesAddUp(b.offset, pos, bpr);
      MultiplesAddUp(b.offset + pos, p - pos, bpr);
    } else {
      if b.size > 0 {
        MultiplesAddUp(b.size, pos - b.size, bpr);
      }
      SliceOnOneStripe(rest, pos - b.size, p - b.size, bpr);
    }
  }

  /** Every sector of every sub-request is sent to the disk that stores it. */
  ghost predicate Striped(subs: seq<SubRequest>, bpr: nat, disks: nat)
    requires bpr > 0 && disks > 0
  {
    forall i, k :: 0 <= i < |subs| && 0 <= k < |Sectors(subs[i].branches)| ==>
      subs[i].disk == (Sectors(subs[i].branches)[k] / bpr) % disks
  }

  /** Without empty branches the cursor is at the sector that comes next. */
  lemma {:induction false} CursorIsNextSector(bs: seq<Branch>, pos: nat)
    requires pos < |Sectors(bs)| && forall i :: 0 <= i < |bs| ==> bs[i].size > 0
    ensures Cursor(bs, pos) == Sectors(bs)[pos]
  {
    if !(pos == 0 || pos < bs[0].size) {
      CursorIsNextSector(bs[1..], pos - bs[0].size);
    }
  }

  /** Aligned or not: without empty branches a sub-request goes to the disk of its first sector. */
  lemma FirstSectorDecides(bs: seq<Branch>, subs: seq<SubRequest>, bpr: nat, disks: nat, i: nat)
    requires bpr > 0 && disks > 0 && IsSplit(bs, subs, bpr, disks) && i < |subs|
    requires forall k :: 0 <= k < |bs| ==> bs[k].size > 0
    ensures Sectors(subs[i].branches) != [] && subs[i].disk == (Sectors(subs[i].branches)[0] / bpr) % disks
  {
    PieceGoesToFirstSector(bs, subs[i], i, i * bpr, bpr, disks);
  }

  lemma PieceGoesToFirstSector(bs: seq<Branch>, sub: SubRequest, i: nat, start: nat, bpr: nat, disks: nat)
    requires bpr > 0 && disks > 0 && IsPiece(bs, sub, i, start, bpr, disks)
    requires forall k :: 0 <= k < |bs| ==> bs[k].size > 0
    ensures Sectors(sub.branches) != [] && sub.disk == (Sectors(sub.branches)[0] / bpr) % disks
  {
    CursorIsNextSector(bs, start);
  }

  /** All sectors of one sub-request share a disk, so one of them decides for all. */
  lemma PieceIsRight(bs: seq<Branch>, sub: SubRequest, i: nat, start: nat, bpr: nat, disks: nat, k: nat)
    requires bpr > 0 && disks > 0 && IsPiece(bs, sub, i, start, bpr, disks) && Aligned(bs, bpr) && start % bpr == 0
    requires k < |Sectors(sub.branches)|
    ensures sub.disk == Disk(Sectors(sub.branches)[k], bpr, disks) <==> RightAt(bs, start, bpr, disks)
  {
    SliceOnOneStripe(bs, start, start + k, bpr);
  }

  lemma StripedImpliesRight(bs: seq<Branch>, subs: seq<SubRequest>, bpr: nat, disks: nat, pos: nat)
    requires bpr > 0 && disks > 0 && IsSplit(bs, subs, bpr, disks) && Aligned(bs, bpr) && Striped(subs, bpr, disks)
    requires pos < |Sectors(bs)| && pos % bpr == 0
    ensures RightAt(bs, pos, bpr, disks)
  {
    SectorFindsItsPiece(bs, subs, bpr, disks, pos);
    var i := pos / bpr;
    DivMod(pos, bpr);
    assert IsPiece(bs, subs[i], i, pos, bpr, disks);
    PieceIsRight(bs, subs[i], i, pos, bpr, disks, 0);
  }

  lemma RightImpliesStriped(bs: seq<Branch>, subs: seq<SubRequest>, bpr: nat, disks: nat, i: nat, k: nat)
    requires bpr > 0 && disks > 0 && IsSplit(bs, subs, bpr, disks) &&
             Aligned(bs, bpr) && RightFrom(bs, true, bpr, disks)
    requires i < |subs| && k < |Sectors(subs[i].branches)|
    ensures subs[i].disk == Disk(Sectors(subs[i].branches)[k], bpr, disks)
  {
    QuotientUnique(bpr, i, 0);
    assert IsPiece(bs, subs[i], i, i * bpr, bpr, disks);
    RightPiece(bs, subs[i], i, i * bpr, bpr, disks, k);
  }

  lemma RightPiece(bs: seq<Branch>, sub: SubRequest, i: nat, start: nat, bpr: nat, disks: nat, k: nat)
    requires bpr > 0 && disks > 0 && IsPiece(bs, sub, i, start, bpr, disks) && Aligned(bs, bpr) && start % bpr == 0
    requires RightFrom(bs, true, bpr, disks) && k < |Sectors(sub.branches)|
    ensures sub.disk == Disk(Sectors(sub.branches)[k], bpr, disks)
  {
    assert RightAt(bs, start, bpr, disks);
    PieceIsRight(bs, sub, i, start, bpr, disks, k);
  }

  lemma StripedIsRight(bs: seq<Branch>, subs: seq<SubRequest>, bpr: nat, disks: nat)
    requires bpr > 0 && disks > 0 && IsSplit(bs, subs, bpr, disks) && Aligned(bs, bpr)
    ensures Striped(subs, bpr, disks) <==> RightFrom(bs, true, bpr, disks)
  {
    if Striped(subs, bpr, disks) {
      forall pos: nat | pos < |Sectors(bs)| && pos % bpr == 0 ensures RightAt(bs, pos, bpr, disks) {
        StripedImpliesRight(bs, subs, bpr, disks, pos);
      }
    }
    if RightFrom(bs, true, bpr, disks) {
      forall i, k | 0 <= i < |subs| && 0 <= k < |Sectors(subs[i].branches)|
        ensures subs[i].disk == Disk(Sectors(subs[i].branches)[k], bpr, disks)
      {
        RightImpliesStriped(bs, subs, bpr, disks, i, k);
      }
    }
  }

  /** The exact condition for aligned requests: sector s always goes to disk (s / bpr) % disks if and
      only if no empty branch at a stripe boundary points elsewhere than the sector behind it. */
  lemma StripedIffEmptiesHarmless(bs: seq<Branch>, subs: seq<SubRequest>, bpr: nat, disks: nat)
    requires bpr > 0 && disks > 0 && IsSplit(bs, subs, bpr, disks) && Aligned(bs, bpr)
    ensures Striped(subs, bpr, disks) <==> EmptiesHarmless(bs, true, bpr, disks)
  {
    StripedIsRight(bs, subs, bpr, disks);
    HarmlessIsRight(bs, true, bpr, disks);
  }

  lemma {:induction false} NoEmptiesNoHarm(bs: seq<Branch>, bpr: nat, disks: nat)
    requires bpr > 0 && disks > 0 && forall i :: 0 <= i < |bs| ==> bs[i].size > 0
    ensures EmptiesHarmless(bs, true, bpr, disks)
  {
    if bs != [] {
      NoEmptiesNoHarm(bs[1..], bpr, disks);
    }
  }

  /** Without empty branches aligned requests are striped right. */
  lemma {:induction false} AlignedIsStriped(bs: seq<Branch>, subs: seq<SubRequest>, bpr: nat, disks: nat)
    requires bpr > 0 && disks > 0 && IsSplit(bs, subs, bpr, disks) && Aligned(bs, bpr)
    requires forall i :: 0 <= i < |bs| ==> bs[i].size > 0
    ensures Striped(subs, bpr, disks)
  {
    StripedIffEmptiesHarmless(bs, subs, bpr, disks);
    NoEmptiesNoHarm(bs, bpr, disks);
  }

  /** An empty branch between two full stripes can send the second one to the wrong disk. */
  lemma EmptyBranchMisleads(subs: seq<SubRequest>)
    requires IsSplit([Branch(0, 8), Branch(8, 0), Branch(16, 8)], subs, 8, 2)
    ensures !Striped(subs, 8, 2)
  {
    var bs := [Branch(0, 8), Branch(8, 0), Branch(16, 8)];
    assert bs[1..] == [Branch(8, 0), Branch(16, 8)];
    assert bs[1..][1..] == [Branch(16, 8)];
    assert Sectors([Branch(16, 8)]) == Run(16, 8) + Sectors([]);
    assert Sectors([Branch(16, 8)])[0] == 16;
    assert !EmptiesHarmless(bs[1..], true, 8, 2);
    StripedIffEmptiesHarmless(bs, subs, 8, 2);
  }
}
