/** The NFS splitter: reads and writes are sent in chunks, other calls as one message. */
module Nfs {
  import opened Arith
  import Arrivals
  import opened SplittingMessages
  import opened Wrappers

  const READ_REQUEST := 44
  const WRITE_REQUEST := 52
  const CREATE_REQUEST := 68
  const DELETE_REQUEST := 36
  const OPEN_REQUEST := 36
  const CLOSE_REQUEST := 36

  datatype Operation = Read | Write | Create | Delete | Open | Close | Other

  /** A file request; `size` is copied unchanged into every sub-request. */
  datatype FileMessage = FileMessage(op: Operation, offset: nat, size: nat, byteLength: nat)

  datatype SubRequest = SubRequest(msg: FileMessage, link: Arrivals.Message)

  function Part(size: nat, chunk: nat, i: nat): nat
  {
    if size - i * chunk >= chunk then chunk else if size - i * chunk < 0 then 0 else size - i * chunk
  }

  function HeaderLength(op: Operation): nat {
    match op
    case Read => READ_REQUEST
    case Write => WRITE_REQUEST
    case Create => CREATE_REQUEST
    case Delete => DELETE_REQUEST
    case Open => OPEN_REQUEST
    case Close => CLOSE_REQUEST
    case Other => 0
  }

  function Chunk(m: FileMessage, chunk: nat, firstId: nat, i: nat): SubRequest {
    var data := if m.op.Write? then Part(m.size, chunk, i) else 0;
    SubRequest(FileMessage(m.op, m.offset + i * chunk, m.size, HeaderLength(m.op) + data),
               Arrivals.Message(firstId + i, i, false))
  }

  function RoundedUp(size: nat, chunk: nat): nat
    requires chunk > 0
  {
    (size + chunk - 1) / chunk
  }

  /** The sub-requests of a message. */
  function Chunks(m: FileMessage, chunk: nat, firstId: nat): seq<SubRequest>
    requires chunk > 0
  {
    match m.op
    case Read => seq(RoundedUp(m.size, chunk), i requires i >= 0 => Chunk(m, chunk, firstId, i))
    case Write => seq(RoundedUp(m.size, chunk), i requires i >= 0 => Chunk(m, chunk, firstId, i))
    case Other => []
    case _ => [SubRequest(m.(byteLength := HeaderLength(m.op)), Arrivals.Message(firstId, 0, false))]
  }

  function Links(subs: seq<SubRequest>): seq<Arrivals.Message> {
    seq(|subs|, i requires 0 <= i < |subs| => subs[i].link)
  }

  lemma RoundUp(size: nat, chunk: nat)
    requires chunk > 0
    ensures RoundedUp(size, chunk) == if size % chunk == 0 then size / chunk else size / chunk + 1
  {
    DivMod(size, chunk);
    if size % chunk == 0 {
      QuotientUnique(chunk, size / chunk, chunk - 1);
    } else {
      assert (size / chunk + 1) * chunk == size / chunk * chunk + chunk;
      QuotientUnique(chunk, size / chunk + 1, size % chunk - 1);
    }
  }

  /** Only the last chunk can be short, and it is not empty. */
  lemma PartIs(size: nat, chunk: nat, i: nat)
    requires chunk > 0 && i < RoundedUp(size, chunk)
    ensures i * chunk < size && 0 < Part(size, chunk, i) <= chunk
    ensures i + 1 < RoundedUp(size, chunk) ==> Part(size, chunk, i) == chunk && i * chunk + chunk == (i + 1) * chunk
    ensures i + 1 == RoundedUp(size, chunk) ==> i * chunk + Part(size, chunk, i) == size
  {
    var n := RoundedUp(size, chunk);
    DivMod(size + chunk - 1, chunk);
    MulStrict(i, n, chunk);
    MulStrict(i + 1, n, chunk);
    assert (i + 1) * chunk == i * chunk + chunk;
  }

  /** The chunk that starts `done` bytes into the parent, and where the one behind it starts. */
  lemma NextChunk(m: FileMessage, chunk: nat, firstId: nat, i: nat, done: nat)
    requires chunk > 0 && (m.op.Read? || m.op.Write?) && i < |Chunks(m, chunk, firstId)|
    requires Chunks(m, chunk, firstId)[i].msg.offset == m.offset + done
    ensures done <= m.size
    ensures var (subs, part) := (Chunks(m, chunk, firstId), if m.size - done >= chunk then chunk else m.size - done);
            && subs[i] == SubRequest(
                 FileMessage(m.op, m.offset + done, m.size, if m.op.Read? then READ_REQUEST else WRITE_REQUEST + part),
                 Arrivals.Message(firstId + i, i, false))
            && (i + 1 < |subs| ==> subs[i + 1].msg.offset == m.offset + done + part)
  {
    PartIs(m.size, chunk, i);
  }

  class SmsNfs {
    const requestSizeNFS: nat
    const requests: SplittingMessageSystem

    ghost predicate Valid()
      reads requests
    {
      requestSizeNFS > 0 && requests.Valid()
    }

    constructor (requestSize_KB: nat)
      requires requestSize_KB > 0
      ensures Valid() && fresh(requests) && requests.Table() == [] && requestSizeNFS == requestSize_KB * KB
    {
      requestSizeNFS := requestSize_KB * KB;
      requests := new SplittingMessageSystem();
    }

    /** The i-th sub-request of a read or write, `done` bytes into it, and how many bytes it stands for. */
    method MakeChunk(m: FileMessage, firstId: nat, i: nat, done: nat, ghost chunks: seq<SubRequest>)
      returns (sub: SubRequest, part: nat)
      requires requestSizeNFS > 0 && (m.op.Read? || m.op.Write?) && chunks == Chunks(m, requestSizeNFS, firstId)
      requires i < |chunks| && chunks[i].msg.offset == m.offset + done
      ensures sub == chunks[i]
      ensures i + 1 < |chunks| ==> chunks[i + 1].msg.offset == m.offset + done + part
    {
      NextChunk(m, requestSizeNFS, firstId, i, done);
      part := if m.size - done >= requestSizeNFS then requestSizeNFS else m.size - done;
      var length := if m.op.Read? then READ_REQUEST else WRITE_REQUEST + part;
      sub := SubRequest(FileMessage(m.op, m.offset + done, m.size, length), Arrivals.Message(firstId + i, i, false));
    }

    /** The loop over the chunks: each is made and linked. `es` are the events it stands for, of which
        the new row is the first and already there. */
    method LinkChunks(id: nat, m: FileMessage, firstId: nat, n: nat,
                      ghost chunks: seq<SubRequest>, ghost start: seq<Arrivals.Request>, ghost es: seq<Arrivals.Event>)
      returns (r: Result<seq<SubRequest>, Arrivals.Error>)
      requires Valid() && (m.op.Read? || m.op.Write?) && chunks == Chunks(m, requestSizeNFS, firstId)
      requires n == |chunks| == |es| - 1 && (n > 0 ==> chunks[0].msg.offset == m.offset)
      requires forall i :: 0 <= i < n ==> es[i + 1] == Arrivals.Link(id, chunks[i].link, i)
      requires Arrivals.Execute(start, es[..1]) == Ok(requests.Table())
      modifies requests.requestVector
      ensures Valid()
      ensures r.Ok? ==> r.value == chunks && Arrivals.Execute(start, es) == Ok(requests.Table())
      ensures r.Err? ==> Arrivals.Execute(start, es) == Err(r.error) && IsPartOf(requests.Table(), start, es)
    {
      var subs: seq<SubRequest>, currentSize: nat := [], 0;
      for i := 0 to n
        invariant Valid()
        invariant Arrivals.Execute(start, es[..i + 1]) == Ok(requests.Table())
        invariant subs == chunks[..i]
        invariant i < n ==> chunks[i].msg.offset == m.offset + currentSize
      {
        var sub, part := MakeChunk(m, firstId, i, currentSize, chunks);
        var linked := requests.SetNext(id, sub.link, i, start, es, i + 1);
        if linked.Err? {
          return Err(linked.error);
        }
        subs := subs + [sub];
        currentSize := currentSize + part;
      }
      assert es[..n + 1] == es;
      r := Ok(subs);
    }

    /** Reads and writes. */
    method SplitData(id: nat, m: FileMessage, firstId: nat) returns (r: Result<seq<SubRequest>, Arrivals.Error>)
      requires Valid() && (m.op.Read? || m.op.Write?)
      modifies requests, requests.requestVector
      ensures Valid()
      ensures r.Ok? ==> r.value == Chunks(m, requestSizeNFS, firstId)
      ensures Entered(old(requests.Table()), TableEvents(id, m, requestSizeNFS, firstId), requests.Table(), r)
    {
      var n := if m.size % requestSizeNFS == 0 then m.size / requestSizeNFS else m.size / requestSizeNFS + 1;
      RoundUp(m.size, requestSizeNFS);
      ghost var chunks := Chunks(m, requestSizeNFS, firstId);
      ghost var es := Entries(id, Links(chunks));
      assert es[..0] == [];
      Arrivals.ExecuteNext(requests.Table(), es, 0);
      ghost var start := requests.Table();
      requests.AddRequest(id, n);
      r := LinkChunks(id, m, firstId, n, chunks, start, es);
    }

    /** Splits request number `id`; the new messages are numbered from `firstId` on. Every sub-request
        is linked in its slot. A call that is not a file operation gets a slot that stays empty. */
    method SplitRequest(id: nat, m: FileMessage, firstId: nat) returns (r: Result<seq<SubRequest>, Arrivals.Error>)
      requires Valid()
      modifies requests, requests.requestVector
      ensures Valid()
      ensures r.Ok? ==> r.value == Chunks(m, requestSizeNFS, firstId)
      ensures Entered(old(requests.Table()), TableEvents(id, m, requestSizeNFS, firstId), requests.Table(), r)
    {
      if m.op.Read? || m.op.Write? {
        r := SplitData(id, m, firstId);
      } else if m.op.Other? {
        ghost var es := [Arrivals.Add(id, 1)];
        assert es[..0] == [] && es[..1] == es;
        Arrivals.ExecuteNext(requests.Table(), es, 0);
        requests.AddRequest(id, 1);
        r := Ok([]);
      } else {
        var sub := SubRequest(m.(byteLength := HeaderLength(m.op)), Arrivals.Message(firstId, 0, false));
        assert Links([sub]) == [sub.link];
        var linked := requests.Register(id, [sub.link]);
        r := if linked.Ok? then Ok([sub]) else Err(linked.error);
      }
    }
  }

  /** What splitting request `id` does to the table. */
  function TableEvents(id: nat, m: FileMessage, chunk: nat, firstId: nat): seq<Arrivals.Event>
    requires chunk > 0
  {
    if m.op.Other? then [Arrivals.Add(id, 1)] else Entries(id, Links(Chunks(m, chunk, firstId)))
  }

  /** All events have been applied; or one failed, with this outcome, and those before it were. */
  ghost predicate Entered<T>(before: seq<Arrivals.Request>, es: seq<Arrivals.Event>, after: seq<Arrivals.Request>,
                             r: Result<T, Arrivals.Error>)
  {
    if r.Ok? then Arrivals.Execute(before, es) == Ok(after)
    else Arrivals.Execute(before, es) == Err(r.error) && IsPartOf(after, before, es)
  }

  /** A request that is not in the table yet is entered with all its sub-requests linked. */
  lemma {:induction false} NewRequestIsEntered(t: seq<Arrivals.Request>, id: nat, m: FileMessage,
                                                 chunk: nat, firstId: nat)
    requires chunk > 0 && Arrivals.Find(t, id) == |t|
    ensures var links := Links(Chunks(m, chunk, firstId));
            Arrivals.Execute(t, TableEvents(id, m, chunk, firstId)) ==
            Ok(t + [if m.op.Other? then Arrivals.Empty(id, 1) else Linked(id, links, |links|)])
  {
    if m.op.Other? {
      var es := [Arrivals.Add(id, 1)];
      assert es[..0] == [] && es[..1] == es;
      Arrivals.ExecuteNext(t, es, 0);
    } else {
      NewParentIsLinked(t, id, Links(Chunks(m, chunk, firstId)));
    }
  }

  // ---------------------------------------------------------------- what the chunks are

  /** The chunks follow each other without gap from the parent's offset to its end; sub-request i has
      trace index i and still carries the size of the whole parent. */
  lemma ChunksAreContiguous(m: FileMessage, chunk: nat, firstId: nat, i: nat)
    requires chunk > 0 && (m.op.Read? || m.op.Write?) && i < |Chunks(m, chunk, firstId)|
    ensures var subs := Chunks(m, chunk, firstId);
            && subs[0].msg.offset == m.offset
            && subs[i].link.currentRequest == i && subs[i].msg.size == m.size
            && 0 < Part(m.size, chunk, i) <= chunk
            && (i + 1 < |subs| ==> Part(m.size, chunk, i) == chunk)
            && subs[i].msg.offset + Part(m.size, chunk, i) ==
               if i + 1 < |subs| then subs[i + 1].msg.offset else m.offset + m.size
  {
    PartIs(m.size, chunk, i);
  }

  /** The exact condition: a chunk's size is that of the data it stands for if and only if the request
      is not split at all. */
  lemma SizesRightIffUnsplit(m: FileMessage, chunk: nat, firstId: nat, i: nat)
    requires chunk > 0 && (m.op.Read? || m.op.Write?) && i < |Chunks(m, chunk, firstId)|
    ensures Chunks(m, chunk, firstId)[i].msg.size == Part(m.size, chunk, i) <==> m.size <= chunk
  {
    PartIs(m.size, chunk, i);
    if m.size <= chunk {
      if i > 0 {
        MulStrict(0, i, chunk);
      }
    }
  }

  /** Two chunks of one byte, each of which says that it has two. */
  lemma SplitSizesAreWrong(firstId: nat)
    ensures var subs := Chunks(FileMessage(Read, 0, 2, 0), 1, firstId);
            |subs| == 2 && subs[0].msg.size == 2 && Part(2, 1, 0) == 1
  {
    RoundUp(2, 1);
  }

  /** What is sent for a chunk: the operation, a header of 44 bytes for a read or of 52 bytes and the data
      for a write, and the numbers of the message and of the chunk. */
  lemma ChunkMessages(m: FileMessage, chunk: nat, firstId: nat, i: nat)
    requires chunk > 0 && (m.op.Read? || m.op.Write?) && i < |Chunks(m, chunk, firstId)|
    ensures var sub := Chunks(m, chunk, firstId)[i];
            && sub.msg.op == m.op
            && sub.msg.byteLength == (if m.op.Read? then 44 else 52 + Part(m.size, chunk, i))
            && sub.link == Arrivals.Message(firstId + i, i, false)
  {
    PartIs(m.size, chunk, i);
  }

  /** Every other file call is one message, the call itself with the length of its header; a call that is
      no file operation is none. */
  lemma OtherCallsAreOneMessage(m: FileMessage, chunk: nat, firstId: nat)
    requires chunk > 0 && !m.op.Read? && !m.op.Write?
    ensures var subs := Chunks(m, chunk, firstId);
            if m.op.Other? then subs == []
            else
              && |subs| == 1 && subs[0].link == Arrivals.Message(firstId, 0, false)
              && subs[0].msg.op == m.op && subs[0].msg.offset == m.offset && subs[0].msg.size == m.size
              && subs[0].msg.byteLength == if m.op.Create? then 68 else 36
  {}

  /** The row of a new request has one slot for each message, and slot i holds message i. */
  lemma SlotsHoldTheirMessages(id: nat, m: FileMessage, chunk: nat, firstId: nat, i: nat)
    requires chunk > 0 && i < |Chunks(m, chunk, firstId)|
    ensures var links := Links(Chunks(m, chunk, firstId));
            && |Linked(id, links, |links|).slots| == |Chunks(m, chunk, firstId)|
            && Linked(id, links, |links|).slots[i] == Some(Arrivals.Message(firstId + i, i, false))
  {}

  function WireBytes(subs: seq<SubRequest>): nat {
    if subs == [] then 0 else WireBytes(subs[..|subs| - 1]) + subs[|subs| - 1].msg.byteLength
  }

  lemma {:induction false} WireBytesOf(m: FileMessage, chunk: nat, firstId: nat, n: nat)
    requires chunk > 0 && m.op.Write? && n <= |Chunks(m, chunk, firstId)|
    ensures WireBytes(Chunks(m, chunk, firstId)[..n]) ==
            WRITE_REQUEST * n + if n < |Chunks(m, chunk, firstId)| then n * chunk else m.size
  {
    var subs := Chunks(m, chunk, firstId);
    if n > 0 {
      WireBytesOf(m, chunk, firstId, n - 1);
      PartIs(m.size, chunk, n - 1);
      assert subs[..n][..n - 1] == subs[..n - 1];
    } else {
      RoundUp(m.size, chunk);
      DivMod(m.size, chunk);
    }
  }

  /** The messages of a write carry its bytes and one header each. */
  lemma WritesCarryTheirBytes(m: FileMessage, chunk: nat, firstId: nat)
    requires chunk > 0 && m.op.Write?
    ensures var subs := Chunks(m, chunk, firstId); WireBytes(subs) == m.size + WRITE_REQUEST * |subs|
  {
    var subs := Chunks(m, chunk, firstId);
    WireBytesOf(m, chunk, firstId, |subs|);
    assert subs[..|subs|] == subs;
  }
}
