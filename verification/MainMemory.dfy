/** The memory splitter: a read asks for whole blocks, a write is cut at the block edges. */
module MainMemory {
  import opened Arith
  import Arrivals
  import opened SplittingMessages
  import opened Wrappers

  datatype Incoming =
    | FileRequest(id: nat, isRead: bool, offset: nat, size: nat)
    | MemoryRequest(id: nat)
    | OtherMessage

  datatype SubRequest =
    | Block(parent: nat, traceIndex: nat, offset: nat, size: nat)
    | Whole(parent: nat, traceIndex: nat)

  datatype Error = WrongMessageType

  /** Where block k begins. */
  function Edge(k: nat, b: nat): nat { k * b }

  /** The number of blocks a request touches; a request of no bytes counts for one. */
  function BlocksTouched(offset: nat, size: nat, b: nat): nat
    requires b > 0
  {
    if size == 0 then 1
    else
      DivMonotone(offset, offset + size - 1, b);
      (offset + size - 1) / b - offset / b + 1
  }

  /** The part of the request that lies in its i-th block. */
  function PartInBlock(parent: nat, offset: nat, size: nat, b: nat, i: nat): (p: SubRequest)
    requires b > 0 && i < BlocksTouched(offset, size, b)
  {
    var (from, to) := (Max(offset, Edge(offset / b + i, b)), Min(offset + size, Edge(offset / b + i + 1, b)));
    Block(parent, i, from, if from < to then to - from else 0)
  }

  function WholeBlock(parent: nat, offset: nat, b: nat, i: nat): SubRequest
    requires b > 0
  {
    Block(parent, i, Edge(offset / b + i, b), b)
  }

  // ---------------------------------------------------------------- counting blocks

  lemma NextEdge(k: nat, b: nat)
    ensures Edge(k + 1, b) == Edge(k, b) + b
  {}

  lemma BlockOf(x: nat, b: nat)
    requires b > 0
    ensures Edge(x / b, b) <= x < Edge(x / b + 1, b) && x - Edge(x / b, b) == x % b
  {
    DivMod(x, b);
    NextEdge(x / b, b);
  }

  lemma EdgesAscend(j: nat, k: nat, b: nat)
    requires j <= k
    ensures Edge(j, b) <= Edge(k, b)
  {
    MulStrict(j, k, b);
  }

  lemma BlockIs(x: nat, k: nat, b: nat)
    requires b > 0 && Edge(k, b) <= x < Edge(k + 1, b)
    ensures x / b == k
  {
    NextEdge(k, b);
    QuotientUnique(b, k, x - Edge(k, b));
  }

  lemma OneLess(n: nat, b: nat)
    requires b > 0 && n > 0
    ensures (n - 1) / b == if n % b == 0 then n / b - 1 else n / b
  {
    DivMod(n, b);
    if n % b == 0 {
      NextEdge(n / b - 1, b);
      QuotientUnique(b, n / b - 1, b - 1);
    } else {
      QuotientUnique(b, n / b, n % b - 1);
    }
  }

  /** The splitter counts the blocks from the bytes behind the first block. */
  method CountBlocks(offset: nat, size: nat, b: nat) returns (first: nat, n: nat)
    requires b > 0
    ensures first == Min(size, b - offset % b)
    ensures n == BlocksTouched(offset, size, b)
  {
    first := if size < b - offset % b then size else b - offset % b;
    n := if (size - first) % b == 0 then (size - first) / b + 1 else (size - first) / b + 2;
    BlockOf(offset, b);
    if size > 0 {
      if size <= b - offset % b {
        QuotientUnique(b, 0, 0);
        BlockIs(offset + size - 1, offset / b, b);
      } else {
        CountBehindFirst(offset, size, b);
      }
    } else {
      QuotientUnique(b, 0, 0);
    }
  }

  lemma CountBehindFirst(offset: nat, size: nat, b: nat)
    requires b > 0 && size > b - offset % b
    ensures var rest := size - (b - offset % b);
            BlocksTouched(offset, size, b) == if rest % b == 0 then rest / b + 1 else rest / b + 2
  {
    var (k, rest) := (offset / b + 1, size - (b - offset % b));
    BlockOf(offset, b);
    NextEdge(offset / b, b);
    OneLess(rest, b);
    QuotientUnique(b, k, 0);
    MultiplesAddUp(Edge(k, b), rest - 1, b);
  }

  /** All touched blocks but the last end inside the request, and the last one reaches its end. */
  lemma EdgesInside(offset: nat, size: nat, b: nat, i: nat)
    requires b > 0 && i <= BlocksTouched(offset, size, b)
    ensures i > 0 ==> offset < Edge(offset / b + i, b)
    ensures 0 < i < BlocksTouched(offset, size, b) ==> Edge(offset / b + i, b) < offset + size
    ensures i == BlocksTouched(offset, size, b) ==> offset + size <= Edge(offset / b + i, b)
  {
    var f := offset / b;
    BlockOf(offset, b);
    if i > 0 {
      EdgesAscend(f + 1, f + i, b);
    }
    if size > 0 {
      var last := offset + size - 1;
      BlockOf(last, b);
      if i < BlocksTouched(offset, size, b) {
        EdgesAscend(f + i, last / b, b);
      }
    }
  }

  // ---------------------------------------------------------------- the splitter

  /** The sub-requests a message is cut into. */
  function Pieces(msg: Incoming, b: nat, readAhead: nat): seq<SubRequest>
    requires b > 0
  {
    match msg
    case FileRequest(id, isRead, offset, size) =>
      if isRead
      then seq(BlocksTouched(offset, size, b) + readAhead, i requires i >= 0 => WholeBlock(id, offset, b, i))
      else seq(BlocksTouched(offset, size, b),
               i requires 0 <= i < BlocksTouched(offset, size, b) => PartInBlock(id, offset, size, b, i))
    case MemoryRequest(id) => [Whole(id, 0)]
    case OtherMessage => []
  }

  lemma FirstPart(id: nat, offset: nat, size: nat, b: nat)
    requires b > 0
    ensures var first := Min(size, b - offset % b);
            && PartInBlock(id, offset, size, b, 0) == Block(id, 0, offset, first)
            && offset + first == Min(offset + size, Edge(offset / b + 1, b))
  {
    BlockOf(offset, b);
    NextEdge(offset / b, b);
  }

  lemma NextPart(id: nat, offset: nat, size: nat, b: nat, i: nat, current: nat)
    requires b > 0 && 0 < i < BlocksTouched(offset, size, b) && current == Min(offset + size, Edge(offset / b + i, b))
    ensures var part := Min(b, offset + size - current);
            && PartInBlock(id, offset, size, b, i) == Block(id, i, current, part)
            && current + part == Min(offset + size, Edge(offset / b + i + 1, b))
  {
    EdgesInside(offset, size, b, i);
    NextEdge(offset / b + i, b);
  }

  class SmsMainMemory {
    const readAheadBlocks: nat
    const memoryBlockSize: nat
    const requests: SplittingMessageSystem
    var subRequests: seq<SubRequest>

    ghost predicate Valid()
      reads this, requests
    {
      memoryBlockSize > 0 && requests.Valid()
    }

    constructor (newReadAheadBlocks: nat, newMemoryBlockSize: nat)
      requires newMemoryBlockSize > 0
      ensures Valid() && fresh(requests) && requests.Table() == [] && subRequests == []
      ensures readAheadBlocks == newReadAheadBlocks && memoryBlockSize == newMemoryBlockSize
    {
      readAheadBlocks := newReadAheadBlocks;
      memoryBlockSize := newMemoryBlockSize;
      requests := new SplittingMessageSystem();
      subRequests := [];
    }

    /** The sub-requests are queued, and the parent gets an empty slot for each of them. */
    method SplitRequest(msg: Incoming) returns (r: Result<(), Error>)
      requires Valid()
      modifies this, requests
      ensures Valid() && (r.Err? <==> msg.OtherMessage?)
      ensures subRequests == old(subRequests) + Pieces(msg, memoryBlockSize, readAheadBlocks)
      ensures requests.Table() == old(requests.Table()) +
                if r.Ok? then [Arrivals.Empty(msg.id, |Pieces(msg, memoryBlockSize, readAheadBlocks)|)] else []
    {
      r := Ok(());
      match msg
      case FileRequest(id, isRead, offset, size) =>
        var first, n := CountBlocks(offset, size, memoryBlockSize);
        if isRead {
          n := n + readAheadBlocks;
          requests.AddRequest(id, n);
          QueueReads(id, offset, n);
        } else {
          requests.AddRequest(id, n);
          QueueWrites(id, offset, size, first, n);
        }
      case MemoryRequest(id) =>
        requests.AddRequest(id, 1);
        subRequests := subRequests + [Whole(id, 0)];
      case OtherMessage =>
        r := Err(WrongMessageType);
    }

    method QueueReads(id: nat, offset: nat, n: nat)
      requires memoryBlockSize > 0
      modifies this
      ensures subRequests == old(subRequests) + seq(n, i requires i >= 0 => WholeBlock(id, offset, memoryBlockSize, i))
    {
      var currentOffset := offset / memoryBlockSize * memoryBlockSize;
      for i := 0 to n
        invariant currentOffset == Edge(offset / memoryBlockSize + i, memoryBlockSize)
        invariant subRequests == old(subRequests) +
                    seq(i, k requires k >= 0 => WholeBlock(id, offset, memoryBlockSize, k))
      {
        subRequests := subRequests + [Block(id, i, currentOffset, memoryBlockSize)];
        NextEdge(offset / memoryBlockSize + i, memoryBlockSize);
        currentOffset := currentOffset + memoryBlockSize;
      }
    }

    method QueueWrites(id: nat, offset: nat, size: nat, bytesInFirstBlock: nat, n: nat)
      requires memoryBlockSize > 0 && bytesInFirstBlock == Min(size, memoryBlockSize - offset % memoryBlockSize)
      requires n == BlocksTouched(offset, size, memoryBlockSize)
      modifies this
      ensures subRequests == old(subRequests) +
                seq(n, k requires 0 <= k < n => PartInBlock(id, offset, size, memoryBlockSize, k))
    {
      ghost var b := memoryBlockSize;
      FirstPart(id, offset, size, b);
      subRequests := subRequests + [Block(id, 0, offset, bytesInFirstBlock)];
      var currentOffset := offset + bytesInFirstBlock;
      for i := 1 to n
        invariant currentOffset == Min(offset + size, Edge(offset / b + i, b))
        invariant subRequests == old(subRequests) + seq(i, k requires 0 <= k < i => PartInBlock(id, offset, size, b, k))
      {
        NextPart(id, offset, size, b, i, currentOffset);
        var currentSize := if offset + size - currentOffset >= memoryBlockSize then memoryBlockSize
                           else offset + size - currentOffset;
        subRequests := subRequests + [Block(id, i, currentOffset, currentSize)];
        currentOffset := currentOffset + currentSize;
      }
    }

    method PopSubRequest() returns (msg: Option<SubRequest>)
      modifies this
      ensures if old(subRequests) == [] then msg == None && subRequests == []
              else msg.Some? && old(subRequests) == [msg.value] + subRequests
    {
      if subRequests == [] {
        msg := None;
      } else {
        msg := Some(subRequests[0]);
        subRequests := subRequests[1..];
      }
    }
  }

  // ---------------------------------------------------------------- what the pieces are

  /** Position x of the file lies in the piece. */
  predicate Has(p: SubRequest, x: nat) {
    p.Block? && p.offset <= x < p.offset + p.size
  }

  /** Write pieces are not empty, each lies in one block, and every byte of the request and no other
      byte is in exactly one of them. */
  lemma WritesPartition(id: nat, offset: nat, size: nat, b: nat, readAhead: nat)
    requires b > 0 && size > 0
    ensures var ps := Pieces(FileRequest(id, false, offset, size), b, readAhead);
            && (forall i | 0 <= i < |ps| :: ps[i].Block? && ps[i].size > 0 && ps[i].traceIndex == i
                                           && ps[i].parent == id
                                           && ps[i].offset / b == (ps[i].offset + ps[i].size - 1) / b)
            && (forall i, x: nat :: 0 <= i < |ps| ==>
                  (Has(ps[i], x) <==> offset <= x < offset + size && i == x / b - offset / b))
            && (forall x: nat :: offset <= x < offset + size ==> 0 <= x / b - offset / b < |ps|)
  {
    var ps := Pieces(FileRequest(id, false, offset, size), b, readAhead);
    forall i | 0 <= i < |ps|
      ensures ps[i].Block? && ps[i].size > 0 && ps[i].traceIndex == i && ps[i].parent == id &&
              ps[i].offset / b == (ps[i].offset + ps[i].size - 1) / b
    {
      PartIsInBlock(id, offset, size, b, i);
    }
    forall i, x: nat | 0 <= i < |ps| ensures Has(ps[i], x) <==> offset <= x < offset + size && i == x / b - offset / b {
      PartHolds(id, offset, size, b, i, x);
    }
    forall x: nat | offset <= x < offset + size ensures 0 <= x / b - offset / b < |ps| {
      DivMonotone(offset, x, b);
      DivMonotone(x, offset + size - 1, b);
    }
  }

  /** A request of no bytes is one empty piece, or one block and the read-ahead; a memory request is one
      piece, and any other message none. */
  lemma SinglePieces(id: nat, offset: nat, b: nat, readAhead: nat)
    requires b > 0
    ensures Pieces(FileRequest(id, false, offset, 0), b, readAhead) == [Block(id, 0, offset, 0)]
    ensures |Pieces(FileRequest(id, true, offset, 0), b, readAhead)| == 1 + readAhead
    ensures Pieces(MemoryRequest(id), b, readAhead) == [Whole(id, 0)]
    ensures Pieces(OtherMessage, b, readAhead) == []
  {
    FirstPart(id, offset, 0, b);
  }

  lemma PartIsInBlock(id: nat, offset: nat, size: nat, b: nat, i: nat)
    requires b > 0 && size > 0 && i < BlocksTouched(offset, size, b)
    ensures var p := PartInBlock(id, offset, size, b, i);
            p.size > 0 && p.offset / b == offset / b + i && (p.offset + p.size - 1) / b == offset / b + i
  {
    var p := PartInBlock(id, offset, size, b, i);
    EdgesInside(offset, size, b, i);
    EdgesInside(offset, size, b, i + 1);
    BlockOf(offset, b);
    NextEdge(offset / b + i, b);
    BlockIs(p.offset, offset / b + i, b);
    BlockIs(p.offset + p.size - 1, offset / b + i, b);
  }

  lemma PartHolds(id: nat, offset: nat, size: nat, b: nat, i: nat, x: nat)
    requires b > 0 && size > 0 && i < BlocksTouched(offset, size, b)
    ensures Has(PartInBlock(id, offset, size, b, i), x) <==> offset <= x < offset + size && i == x / b - offset / b
  {
    var k := offset / b + i;
    PartIsInBlock(id, offset, size, b, i);
    BlockOf(x, b);
    if Edge(k, b) <= x < Edge(k + 1, b) {
      BlockIs(x, k, b);
    }
  }

  /** Read pieces are whole blocks in sequence, so each holds the bytes of its block; and they are the
      blocks the request touches, followed by the read-ahead blocks. */
  lemma ReadsAreBlocks(id: nat, offset: nat, size: nat, b: nat, readAhead: nat, i: nat, x: nat)
    requires b > 0 && i < BlocksTouched(offset, size, b) + readAhead
    ensures var ps := Pieces(FileRequest(id, true, offset, size), b, readAhead);
            && |ps| == BlocksTouched(offset, size, b) + readAhead
            && ps[i] == Block(id, i, Edge(offset / b + i, b), b)
            && (Has(ps[i], x) <==> x / b == offset / b + i)
  {
    WholeHolds(id, offset, b, i, x);
  }

  /** The cover is minimal: block k is among those asked for, without read-ahead, if and only if it
      holds a byte of the request. */
  lemma CoverIsMinimal(offset: nat, size: nat, b: nat, k: nat)
    requires b > 0 && size > 0
    ensures offset / b <= k < offset / b + BlocksTouched(offset, size, b) <==>
            exists x: nat :: offset <= x < offset + size && InBlock(x, k, b)
  {
    if offset / b <= k < offset / b + BlocksTouched(offset, size, b) {
      var x := PartInBlock(0, offset, size, b, k - offset / b).offset;
      PartIsInBlock(0, offset, size, b, k - offset / b);
      PartHolds(0, offset, size, b, k - offset / b, x);
      assert InBlock(x, k, b);
    }
    forall x: nat | offset <= x < offset + size && InBlock(x, k, b)
      ensures offset / b <= k < offset / b + BlocksTouched(offset, size, b)
    {
      DivMonotone(offset, x, b);
      DivMonotone(x, offset + size - 1, b);
    }
  }

  predicate InBlock(x: nat, k: nat, b: nat)
    requires b > 0
  {
    x / b == k
  }

  lemma WholeHolds(id: nat, offset: nat, b: nat, i: nat, x: nat)
    requires b > 0
    ensures Has(WholeBlock(id, offset, b, i), x) <==> x / b == offset / b + i
  {
    NextEdge(offset / b + i, b);
    BlockOf(x, b);
    if Has(WholeBlock(id, offset, b, i), x) {
      BlockIs(x, offset / b + i, b);
    }
  }

  // ---------------------------------------------------------------- when a read can be answered

  /** The number of the sub-request that fetches byte x. */
  function PieceOf(x: nat, offset: nat, b: nat): int
    requires b > 0
  {
    x / b - offset / b
  }

  /** The splitter says that the required blocks of a read are there when, and only when, the block of
      every requested byte has arrived; read-ahead blocks are not waited for. */
  lemma AnsweredWhenBytesAreThere(t: seq<Arrivals.Request>, es: seq<Arrivals.Event>, id: nat,
                                  offset: nat, size: nat, b: nat, readAhead: nat)
    requires b > 0 && size > 0
    requires Arrivals.Holds(t, id, Arrivals.Empty(id, |Pieces(FileRequest(id, true, offset, size), b, readAhead)|))
    requires Arrivals.Execute(t, es).Ok? && Arrivals.OnlyArrives(es, id) &&
             Arrivals.NoDuplicates(Arrivals.Indices(es, id))
    ensures Arrivals.RequiredArrived(Arrivals.Execute(t, es).value, id, readAhead) <==>
            forall x: nat :: offset <= x < offset + size ==> PieceOf(x, offset, b) in Arrivals.Indices(es, id)
  {
    var (n, arrived) := (BlocksTouched(offset, size, b), Arrivals.Indices(es, id));
    Arrivals.RequiredIsExact(t, es, id, Arrivals.Empty(id, n + readAhead), readAhead);
    if forall j :: 0 <= j < n ==> j in arrived {
      forall x: nat | offset <= x < offset + size ensures PieceOf(x, offset, b) in arrived {
        DivMonotone(offset, x, b);
        DivMonotone(x, offset + size - 1, b);
      }
    }
    if forall x: nat :: offset <= x < offset + size ==> PieceOf(x, offset, b) in arrived {
      forall j | 0 <= j < n ensures j in arrived {
        var x := ByteOfPiece(offset, size, b, j);
      }
    }
  }

  lemma ByteOfPiece(offset: nat, size: nat, b: nat, j: nat) returns (x: nat)
    requires b > 0 && size > 0 && j < BlocksTouched(offset, size, b)
    ensures offset <= x < offset + size && PieceOf(x, offset, b) == j
  {
    x := PartInBlock(0, offset, size, b, j).offset;
    PartIsInBlock(0, offset, size, b, j);
    PartHolds(0, offset, size, b, j, x);
  }
}
