/** The branch list of a file: runs of consecutive disk sectors. */
module BlockFile {
  import opened Arith
  import opened Wrappers

  const BYTES_PER_SECTOR: nat := 512

  datatype Branch = Branch(offset: nat, size: nat)

  datatype Error = BranchOutOfBounds

  function Run(offset: nat, size: nat): seq<nat> {
    seq(size, i requires 0 <= i < size => offset + i)
  }

  /** The sectors a branch list stands for, in order. */
  function Sectors(bs: seq<Branch>): seq<nat> {
    if bs == [] then [] else Run(bs[0].offset, bs[0].size) + Sectors(bs[1..])
  }

  function Total(bs: seq<Branch>): nat {
    if bs == [] then 0 else bs[0].size + Total(bs[1..])
  }

  lemma {:induction false} TotalIsLength(bs: seq<Branch>)
    ensures |Sectors(bs)| == Total(bs)
  {
    if bs != [] {
      TotalIsLength(bs[1..]);
    }
  }

  lemma {:induction false} SectorsConcat(a: seq<Branch>, b: seq<Branch>)
    ensures Sectors(a + b) == Sectors(a) + Sectors(b)
    ensures Total(a + b) == Total(a) + Total(b)
  {
    if a == [] {
      assert a + b == b;
    } else {
      assert (a + b)[1..] == a[1..] + b;
      SectorsConcat(a[1..], b);
    }
  }

  lemma SectorsAppend(a: seq<Branch>, b: Branch)
    ensures Sectors(a + [b]) == Sectors(a) + Run(b.offset, b.size)
    ensures Total(a + [b]) == Total(a) + b.size
  {
    SectorsConcat(a, [b]);
    assert Sectors([b]) == Run(b.offset, b.size) + Sectors([]);
    assert Total([b]) == b.size + Total([]);
  }

  /** The offset and size of a branch place it in the file: its sectors come behind those of the branches
      in front of it, from its offset on. */
  lemma BranchIsPlaced(bs: seq<Branch>, k: nat, i: nat)
    requires k < |bs| && i < bs[k].size
    ensures Total(bs[..k]) + i < |Sectors(bs)| && Sectors(bs)[Total(bs[..k]) + i] == bs[k].offset + i
  {
    assert bs == bs[..k + 1] + bs[k + 1..] && bs[..k + 1] == bs[..k] + [bs[k]];
    SectorsAppend(bs[..k], bs[k]);
    SectorsConcat(bs[..k + 1], bs[k + 1..]);
    TotalIsLength(bs[..k]);
    assert Run(bs[k].offset, bs[k].size)[i] == bs[k].offset + i;
  }

  lemma {:induction false} InSectors(bs: seq<Branch>, s: nat)
    ensures s in Sectors(bs) <==> exists i :: 0 <= i < |bs| && bs[i].offset <= s < bs[i].offset + bs[i].size
  {
    if bs != [] {
      var (b, rest) := (bs[0], bs[1..]);
      InSectors(rest, s);
      if b.offset <= s < b.offset + b.size {
        assert Run(b.offset, b.size)[s - b.offset] == s;
        assert bs[0].offset <= s < bs[0].offset + bs[0].size;
      } else if i :| 0 <= i < |rest| && rest[i].offset <= s < rest[i].offset + rest[i].size {
        assert bs[i + 1] == rest[i];
      }
      assert forall i :: 1 <= i < |bs| ==> bs[i] == rest[i - 1];
    }
  }

  class File {
    var fileSize: nat
    var branchList: seq<Branch>

    constructor ()
      ensures fileSize == 0 && branchList == []
    {
      fileSize, branchList := 0, [];
    }

    method GetTotalSectors() returns (numBlocks: nat)
      ensures numBlocks == Total(branchList) == |Sectors(branchList)|
    {
      numBlocks := 0;
      for i := 0 to |branchList|
        invariant numBlocks == Total(branchList[..i])
      {
        assert branchList[..i + 1] == branchList[..i] + [branchList[i]];
        SectorsAppend(branchList[..i], branchList[i]);
        numBlocks := numBlocks + branchList[i].size;
      }
      assert branchList[..|branchList|] == branchList;
      TotalIsLength(branchList);
    }

    method GetBranchOffset(branchNumber: nat) returns (r: Result<nat, Error>)
      ensures r == if branchNumber < |branchList| then Ok(branchList[branchNumber].offset) else Err(BranchOutOfBounds)
    {
      if branchNumber < |branchList| {
        return Ok(branchList[branchNumber].offset);
      }
      r := Err(BranchOutOfBounds);
    }

    /** Appends a run and keeps the byte size of the file in step. */
    method AddBranch(offset: nat, size: nat)
      modifies this
      ensures branchList == old(branchList) + [Branch(offset, size)]
      ensures fileSize == |Sectors(branchList)| * BYTES_PER_SECTOR
    {
      branchList := branchList + [Branch(offset, size)];
      var total := GetTotalSectors();
      fileSize := total * BYTES_PER_SECTOR;
    }

    /** Appends the whole block that holds `sector`. */
    method AddBlock(sector: nat, blockSize: nat)
      requires blockSize >= BYTES_PER_SECTOR
      modifies this
      ensures |branchList| == |old(branchList)| + 1 && branchList[..|old(branchList)|] == old(branchList)
      ensures var b := branchList[|old(branchList)|];
              b.size == blockSize / BYTES_PER_SECTOR && b.offset % b.size == 0 && b.offset <= sector < b.offset + b.size
      ensures sector in Sectors(branchList)
    {
      var sectorsPerBlock := blockSize / BYTES_PER_SECTOR;
      var blockNumber := sector / sectorsPerBlock;
      DivMod(sector, sectorsPerBlock);
      QuotientUnique(sectorsPerBlock, blockNumber, 0);
      AddBranch(blockNumber * sectorsPerBlock, sectorsPerBlock);
      InSectors(branchList, sector);
      assert branchList[|old(branchList)|].offset <= sector;
    }

    method ContainThisSector(sector: nat) returns (found: bool)
      ensures found <==> sector in Sectors(branchList)
    {
      found := false;
      var i := 0;
      while i < |branchList| && !found
        invariant 0 <= i <= |branchList|
        invariant forall k :: 0 <= k < i ==>
                    !(branchList[k].offset <= sector < branchList[k].offset + branchList[k].size)
        invariant found ==>
                    i < |branchList| && branchList[i].offset <= sector < branchList[i].offset + branchList[i].size
        decreases |branchList| - i, !found
      {
        if sector >= branchList[i].offset && sector < branchList[i].offset + branchList[i].size {
          found := true;
        } else {
          i := i + 1;
        }
      }
      InSectors(branchList, sector);
    }
  }
}
