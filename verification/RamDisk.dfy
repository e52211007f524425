/**
 * The RAM-disk driver of exp4/exp_4_2_original.c: one flat loop serves a queue of block requests,
 * each a list of segments, by copying between the disk and the memory the segments' buffers live in.
 * Sector numbers, byte offsets and sizes are computed in 32 bits, as the driver's C types do.
 */
module RamDisk {
  import opened Common

  newtype Byte = x: int | 0 <= x < 256

  // ---- 32-bit arithmetic ----

  const TWO_TO_32: int := 0x1_0000_0000

  /** `n * sector_size`, unbounded. */
  function Bytes(sectors: nat): nat
  {
    sectors * 512
  }

  function Unsigned32(x: int): nat
  {
    x % TWO_TO_32
  }

  function Signed32(x: int): int
  {
    if Unsigned32(x) < 0x8000_0000 then Unsigned32(x) else Unsigned32(x) - TWO_TO_32
  }

  /** `disk_size = diskmb * 1024 * 1024`, an int. */
  function DiskSize(diskmb: int): int
  {
    Signed32(diskmb * 1024 * 1024)
  }

  /** The value given to set_capacity. */
  function Capacity(diskSize: nat): nat
  {
    diskSize / 512
  }

  /** `sector * sector_size`, where `sector` is unsigned and takes the low 32 bits of a 64-bit position. */
  function Offset(pos: nat): nat
  {
    Unsigned32(Bytes(Unsigned32(pos)))
  }

  /** `size = nr_sectors * sector_size`, an int. */
  function Size(nrSectors: nat): int
  {
    Signed32(Bytes(nrSectors))
  }

  /** The driver's bounds check, on offsets from `ramdisk`. */
  predicate Rejected(diskSize: nat, pos: nat, nrSectors: nat)
  {
    Offset(pos) + Size(nrSectors) > diskSize
  }

  lemma OffsetExact(pos: nat)
    ensures Offset(pos) == Bytes(pos) <==> pos < 0x80_0000
  {
    if pos < 0x80_0000 {
      assert Unsigned32(pos) == pos;
    } else {
      assert Bytes(pos) >= TWO_TO_32;
    }
  }

  lemma SizeExact(nrSectors: nat)
    ensures Size(nrSectors) == Bytes(nrSectors) <==> nrSectors < 0x40_0000
  {
  }

  lemma DiskSizeExact(diskmb: int)
    ensures DiskSize(diskmb) == diskmb * 1024 * 1024 <==> -2048 <= diskmb < 2048
  {
  }

  /**
   * Where the computed offset and size are exact, the check fires exactly when the segment passes
   * the end of the device as announced to the block layer, and what it lets through lies inside it.
   */
  lemma BoundsCheckExact(diskmb: int, pos: nat, nrSectors: nat)
    requires 1 <= diskmb <= 2047 && pos < 0x80_0000 && nrSectors < 0x40_0000
    ensures DiskSize(diskmb) == diskmb * 1024 * 1024
    ensures Capacity(DiskSize(diskmb)) == diskmb * 2048
    ensures Rejected(DiskSize(diskmb), pos, nrSectors) <==> pos + nrSectors > Capacity(DiskSize(diskmb))
    ensures !Rejected(DiskSize(diskmb), pos, nrSectors) ==>
      0 <= Bytes(pos) <= Bytes(pos) + Size(nrSectors) <= DiskSize(diskmb)
  {
    OffsetExact(pos);
    SizeExact(nrSectors);
    DiskSizeExact(diskmb);
  }

  /** A length in sectors as the int size sees it. */
  function Folded(nrSectors: nat): int
  {
    var m := nrSectors % 0x80_0000;
    if m < 0x40_0000 then m else m - 0x80_0000
  }

  lemma OffsetFolds(pos: nat)
    ensures Offset(pos) == Bytes(pos % 0x80_0000)
  {
    var q, low := pos / 0x1_0000_0000, pos % 0x1_0000_0000;
    var h, m := low / 0x80_0000, low % 0x80_0000;
    assert pos == 0x80_0000 * (512 * q + h) + m;
    assert pos % 0x80_0000 == m;
    assert 512 * low == 0x1_0000_0000 * h + 512 * m;
    assert (512 * low) % 0x1_0000_0000 == 512 * m;
  }

  lemma SizeFolds(nrSectors: nat)
    ensures Size(nrSectors) == Folded(nrSectors) * 512
  {
    var h, m := nrSectors / 0x80_0000, nrSectors % 0x80_0000;
    assert 512 * nrSectors == 0x1_0000_0000 * h + 512 * m;
    assert (512 * nrSectors) % 0x1_0000_0000 == 512 * m;
  }

  /**
   * For every position and length, the check decides rightly whether the segment passes the end of the
   * device if and only if offset and size are exact or the folded segment is past the end as well.
   */
  lemma BoundsCheckRightIff(diskmb: int, pos: nat, nrSectors: nat)
    requires 1 <= diskmb <= 2047
    ensures DiskSize(diskmb) == diskmb * 1024 * 1024
    ensures (Rejected(DiskSize(diskmb), pos, nrSectors) <==> pos + nrSectors > Capacity(DiskSize(diskmb)))
       <==> (pos < 0x80_0000 && nrSectors < 0x40_0000)
            || pos % 0x80_0000 + Folded(nrSectors) > Capacity(DiskSize(diskmb))
  {
    BoundsCheckExact(diskmb, 0, 0);
    OffsetFolds(pos);
    SizeFolds(nrSectors);
    assert Rejected(DiskSize(diskmb), pos, nrSectors)
      <==> pos % 0x80_0000 + Folded(nrSectors) > Capacity(DiskSize(diskmb));
  }

  /** The failing family: 2^23 sectors further on, a segment past the end is taken for the one it folds onto. */
  lemma PastTheEndAccepted(diskmb: int, pos: nat, nrSectors: nat)
    requires 1 <= diskmb <= 2047 && nrSectors < 0x40_0000 && pos + nrSectors <= Capacity(DiskSize(diskmb))
    ensures Offset(pos + 0x80_0000) == Offset(pos)
    ensures !Rejected(DiskSize(diskmb), pos + 0x80_0000, nrSectors)
    ensures pos + 0x80_0000 + nrSectors > Capacity(DiskSize(diskmb))
  {
    BoundsCheckExact(diskmb, 0, 0);
    OffsetFolds(pos);
    OffsetFolds(pos + 0x80_0000);
    SizeFolds(nrSectors);
  }

  // ---- requests, and what serving them means ----

  /** One bio segment: its length in sectors and where its buffer starts in memory. */
  datatype Segment = Segment(nrSectors: nat, buffer: nat)

  datatype Request = Request(pos: nat, write: bool, segments: seq<Segment>)

  /** What the loop body computes for a segment: where it starts on the disk and how long it is, in bytes. */
  datatype Op = Op(at: nat, write: bool, size: int, buffer: nat)

  datatype Store = Store(disk: seq<Byte>, memory: seq<Byte>)

  function Current(rq: Request): Op
    requires rq.segments != []
  {
    Op(Offset(rq.pos), rq.write, Size(rq.segments[0].nrSectors), rq.segments[0].buffer)
  }

  /** `__blk_end_request_cur`: completes the current segment and moves the position past it. */
  function Advance(rq: Request): Request
    requires rq.segments != []
  {
    Request(rq.pos + rq.segments[0].nrSectors, rq.write, rq.segments[1..])
  }

  function OpsOf(r: Request): (ops: seq<Op>)
    ensures |ops| == |r.segments|
    decreases |r.segments|
  {
    if r.segments == [] then [] else [Current(r)] + OpsOf(Advance(r))
  }

  function OpsOfQueue(queue: seq<Request>): seq<Op>
  {
    if queue == [] then [] else OpsOf(queue[0]) + OpsOfQueue(queue[1..])
  }

  // ---- which segments a queue stands for ----

  function Sectors(segments: seq<Segment>): nat
  {
    if segments == [] then 0 else segments[0].nrSectors + Sectors(segments[1..])
  }

  lemma {:induction false} SectorsStep(segments: seq<Segment>, k: nat)
    requires k < |segments|
    ensures Sectors(segments[..0]) == 0
    ensures Sectors(segments[..k + 1]) == Sectors(segments[..k]) + segments[k].nrSectors
  {
    assert segments[..k + 1][1..] == segments[1..][..k];
    if k > 0 {
      SectorsStep(segments[1..], k - 1);
      assert segments[..k][1..] == segments[1..][..k - 1];
    } else {
      assert segments[1..][..0] == [];
    }
  }

  /** The k-th segment served is the request's k-th, in the request's direction, right behind those before it. */
  lemma {:induction false} OpsOfAt(r: Request, k: nat)
    requires k < |r.segments|
    ensures OpsOf(r)[k].write == r.write && OpsOf(r)[k].buffer == r.segments[k].buffer
    ensures OpsOf(r)[k].at == Offset(r.pos + Sectors(r.segments[..k]))
    ensures OpsOf(r)[k].size == Size(r.segments[k].nrSectors)
    decreases k
  {
    if k > 0 {
      OpsOfAt(Advance(r), k - 1);
      assert r.segments[..k][1..] == r.segments[1..][..k - 1];
    }
  }

  function SegmentCount(queue: seq<Request>): nat
  {
    if queue == [] then 0 else |queue[0].segments| + SegmentCount(queue[1..])
  }

  /** How many segments of a queue come before segment j of request i. */
  function Place(queue: seq<Request>, i: nat, j: nat): nat
    requires i <= |queue|
  {
    SegmentCount(queue[..i]) + j
  }

  lemma PlaceStep(queue: seq<Request>, i: nat, j: nat)
    requires 0 < i <= |queue|
    ensures Place(queue, i, j) == |queue[0].segments| + Place(queue[1..], i - 1, j)
  {
    assert queue[..i][1..] == queue[1..][..i - 1];
  }

  /** The queue's segments in order: first by request, then within the request. */
  lemma {:induction false} OpsOfQueueAt(queue: seq<Request>, i: nat, j: nat)
    requires i < |queue| && j < |queue[i].segments|
    ensures Place(queue, i, j) < |OpsOfQueue(queue)|
    ensures OpsOfQueue(queue)[Place(queue, i, j)] == OpsOf(queue[i])[j]
    decreases i
  {
    if i > 0 {
      PlaceStep(queue, i, j);
      OpsOfQueueAt(queue[1..], i - 1, j);
    }
  }

  /** And nothing else is served. */
  lemma {:induction false} Locate(queue: seq<Request>, n: nat) returns (i: nat, j: nat)
    requires n < |OpsOfQueue(queue)|
    ensures i < |queue| && j < |queue[i].segments| && n == Place(queue, i, j)
    decreases |queue|
  {
    if n < |queue[0].segments| {
      i, j := 0, n;
    } else {
      i, j := Locate(queue[1..], n - |queue[0].segments|);
      i := i + 1;
      PlaceStep(queue, i, j);
    }
  }

  predicate Later(i: nat, j: nat, i': nat, j': nat)
  {
    i < i' || (i == i' && j < j')
  }

  lemma {:induction false} PlaceOrders(queue: seq<Request>, i: nat, j: nat, i': nat, j': nat)
    requires i < |queue| && j < |queue[i].segments| && i' < |queue| && j' < |queue[i'].segments|
    ensures Place(queue, i, j) < Place(queue, i', j') <==> Later(i, j, i', j')
    decreases i
  {
    if i > 0 {
      PlaceStep(queue, i, j);
    }
    if i' > 0 {
      PlaceStep(queue, i', j');
    }
    if i > 0 && i' > 0 {
      PlaceOrders(queue[1..], i - 1, j, i' - 1, j');
    }
  }

  /** What memcpy needs of a segment that passes the check: a size that is not negative and a buffer that long. */
  predicate OpFits(diskSize: nat, memorySize: nat, op: Op)
  {
    op.at + op.size > diskSize || (0 <= op.size && op.buffer + op.size <= memorySize)
  }

  predicate AllFit(diskSize: nat, memorySize: nat, ops: seq<Op>)
  {
    forall k :: 0 <= k < |ops| ==> OpFits(diskSize, memorySize, ops[k])
  }

  /**
   * A segment below 2 GB whose buffer holds all its sectors fits; the size is negative when the length,
   * modulo 4 GB, is 2 GB or more.
   */
  lemma SegmentFits(diskSize: nat, memorySize: nat, rq: Request)
    requires rq.segments != []
    ensures var segment := rq.segments[0];
      && (segment.nrSectors < 0x40_0000 && segment.buffer + Bytes(segment.nrSectors) <= memorySize ==>
            OpFits(diskSize, memorySize, Current(rq)))
      && (Current(rq).size < 0 <==> segment.nrSectors % 0x80_0000 >= 0x40_0000)
  {
    SizeExact(rq.segments[0].nrSectors);
    SizeFolds(rq.segments[0].nrSectors);
  }

  /**
   * The second failing family: a segment past the end with a negative int size, at any position that
   * folds onto the device, passes the check, and no memory is large enough to serve it.
   */
  lemma NegativeSizeAccepted(diskmb: int, rq: Request, memorySize: nat)
    requires 1 <= diskmb <= 2047 && rq.segments != [] && rq.segments[0].nrSectors % 0x80_0000 >= 0x40_0000
    requires rq.pos % 0x80_0000 <= Capacity(DiskSize(diskmb))
    ensures DiskSize(diskmb) >= 0 && Size(rq.segments[0].nrSectors) < 0
    ensures rq.pos + rq.segments[0].nrSectors > Capacity(DiskSize(diskmb))
    ensures !Rejected(DiskSize(diskmb), rq.pos, rq.segments[0].nrSectors)
    ensures !OpFits(DiskSize(diskmb), memorySize, Current(rq))
  {
    BoundsCheckExact(diskmb, 0, 0);
    OffsetFolds(rq.pos);
    SizeFolds(rq.segments[0].nrSectors);
  }

  /** A request that reaches the driver has at least one segment. */
  ghost predicate NoneEmpty(queue: seq<Request>)
  {
    forall k :: 0 <= k < |queue| ==> queue[k].segments != []
  }

  function Splice(s: seq<Byte>, at: nat, data: seq<Byte>): (r: seq<Byte>)
    requires at + |data| <= |s|
    ensures |r| == |s|
    ensures forall k :: 0 <= k < |s| ==> r[k] == if at <= k < at + |data| then data[k - at] else s[k]
  {
    s[..at] + data + s[at + |data|..]
  }

  function Serve(op: Op, st: Store): (r: Store)
    requires OpFits(|st.disk|, |st.memory|, op)
    ensures |r.disk| == |st.disk| && |r.memory| == |st.memory|
  {
    if op.at + op.size > |st.disk| then st
    else if op.write then st.(disk := Splice(st.disk, op.at, st.memory[op.buffer..op.buffer + op.size]))
    else st.(memory := Splice(st.memory, op.buffer, st.disk[op.at..op.at + op.size]))
  }

  function ServeAll(ops: seq<Op>, st: Store): (r: Store)
    requires AllFit(|st.disk|, |st.memory|, ops)
    ensures |r.disk| == |st.disk| && |r.memory| == |st.memory|
  {
    if ops == [] then st else Serve(ops[|ops| - 1], ServeAll(ops[..|ops| - 1], st))
  }

  // ---- the driver ----

  class Driver {
    const ramdisk: array<Byte>
    const memory: array<Byte>
    var queue: seq<Request>

    ghost predicate Valid()
    {
      ramdisk != memory
    }

    ghost predicate QueueFits()
      reads this
    {
      NoneEmpty(queue) && AllFit(ramdisk.Length, memory.Length, OpsOfQueue(queue))
    }

    ghost function Contents(): Store
      reads ramdisk, memory
    {
      Store(ramdisk[..], memory[..])
    }

    /** The part of my_init that sizes and allocates the disk, once vmalloc has succeeded. */
    constructor (diskmb: int, memory: array<Byte>)
      requires DiskSize(diskmb) > 0
      ensures Valid() && fresh(ramdisk) && ramdisk.Length == DiskSize(diskmb)
      ensures this.memory == memory && queue == []
    {
      ramdisk := new Byte[DiskSize(diskmb)];
      this.memory := memory;
      queue := [];
    }

    /** blk_fetch_request */
    method FetchRequest() returns (rq: Option<Request>)
      requires NoneEmpty(queue)
      modifies this`queue
      ensures old(queue) == [] ==> rq == None && queue == []
      ensures old(queue) != [] ==> rq == Some(old(queue)[0]) && queue == old(queue)[1..]
      ensures Pending(rq, queue) == OpsOfQueue(old(queue))
      ensures NoneEmpty(queue) && (rq.Some? ==> rq.value.segments != [])
    {
      if queue == [] {
        rq := None;
      } else {
        rq, queue := Some(queue[0]), queue[1..];
      }
    }

    /** The request loop: it empties the queue and serves every segment of every request once, in order. */
    method MyRequest()
      requires Valid() && QueueFits()
      modifies this`queue, ramdisk, memory
      ensures queue == []
      ensures Contents() == ServeAll(OpsOfQueue(old(queue)), old(Contents()))
    {
      ghost var ops, before, done := OpsOfQueue(queue), Contents(), 0;
      var rq := FetchRequest();
      while rq.Some?
        invariant NoneEmpty(queue) && (rq.Some? ==> rq.value.segments != [])
        invariant done <= |ops| && ops[done..] == Pending(rq, queue)
        invariant rq.None? ==> queue == []
        invariant Contents() == ServeAll(ops[..done], before)
        decreases |queue|, if rq.Some? then |rq.value.segments| + 1 else 0
      {
        ServeNext(rq.value, ops, done, before);
        done := done + 1;
        rq := NextSegment(rq.value);
      }
      assert ops[..done] == ops;
    }

    /** The current segment is the next of all to be served. */
    method ServeNext(rq: Request, ghost ops: seq<Op>, ghost done: nat, ghost before: Store)
      requires Valid() && rq.segments != [] && done <= |ops| && ops[done..] == Pending(Some(rq), queue)
      requires |before.disk| == ramdisk.Length && |before.memory| == memory.Length
      requires AllFit(ramdisk.Length, memory.Length, ops) && Contents() == ServeAll(ops[..done], before)
      modifies ramdisk, memory
      ensures done < |ops| && ops[done + 1..] == Pending(Some(Advance(rq)), queue)
      ensures Contents() == ServeAll(ops[..done + 1], before)
    {
      NextOp(ops, done, rq, queue, before);
      Transfer(rq);
    }

    /** From `done:` on: complete the segment, and fetch when the request has no more. */
    method NextSegment(rq: Request) returns (next: Option<Request>)
      requires NoneEmpty(queue) && rq.segments != []
      modifies this`queue
      ensures NoneEmpty(queue) && (next.Some? ==> next.value.segments != []) && (next.None? ==> queue == [])
      ensures Pending(next, queue) == Pending(Some(Advance(rq)), old(queue))
      ensures |queue| < |old(queue)| || next.None? || (queue == old(queue) && |next.value.segments| < |rq.segments|)
      ensures |queue| <= |old(queue)|
    {
      PendingHead(rq, queue);
      next := Some(Advance(rq));
      if next.value.segments == [] {
        next := FetchRequest();
      }
    }

    /** The loop body up to `done:`, for the current segment of a request. */
    method Transfer(rq: Request)
      requires Valid() && rq.segments != [] && OpFits(ramdisk.Length, memory.Length, Current(rq))
      modifies ramdisk, memory
      ensures Contents() == Serve(Current(rq), old(Contents()))
      ensures var at, buffer, size := Offset(rq.pos), rq.segments[0].buffer, Size(rq.segments[0].nrSectors);
        && (at + size > ramdisk.Length ==> Contents() == old(Contents()))
        && (at + size <= ramdisk.Length && rq.write ==>
              && memory[..] == old(memory[..])
              && ramdisk[..] == Splice(old(ramdisk[..]), at, memory[buffer..buffer + size]))
        && (at + size <= ramdisk.Length && !rq.write ==>
              && ramdisk[..] == old(ramdisk[..])
              && memory[..] == Splice(old(memory[..]), buffer, ramdisk[at..at + size]))
    {
      var nrSectors := rq.segments[0].nrSectors;
      var sector := Unsigned32(rq.pos);
      var ptr := Unsigned32(Bytes(sector));
      var size := Size(nrSectors);
      var data := rq.segments[0].buffer;
      if ptr + size > ramdisk.Length {
        return;
      }
      if rq.write {
        Copy(ramdisk, ptr, memory, data, size);
      } else {
        Copy(memory, data, ramdisk, ptr, size);
      }
    }
  }

  /** What the loop has still to serve. */
  ghost function Pending(rq: Option<Request>, queue: seq<Request>): seq<Op>
  {
    (if rq.Some? then OpsOf(rq.value) else []) + OpsOfQueue(queue)
  }

  lemma PendingHead(rq: Request, queue: seq<Request>)
    requires rq.segments != []
    ensures Pending(Some(rq), queue) == [Current(rq)] + Pending(Some(Advance(rq)), queue)
    ensures Advance(rq).segments == [] ==> Pending(Some(Advance(rq)), queue) == OpsOfQueue(queue)
  {
  }

  /** The next pending segment is the current one of `rq`, and serving it extends the fold by one. */
  lemma NextOp(ops: seq<Op>, done: nat, rq: Request, queue: seq<Request>, before: Store)
    requires done <= |ops| && rq.segments != [] && ops[done..] == Pending(Some(rq), queue)
    requires AllFit(|before.disk|, |before.memory|, ops)
    ensures done < |ops| && ops[done] == Current(rq) && OpFits(|before.disk|, |before.memory|, Current(rq))
    ensures ServeAll(ops[..done + 1], before) == Serve(Current(rq), ServeAll(ops[..done], before))
    ensures ops[done + 1..] == Pending(Some(Advance(rq)), queue)
    ensures Advance(rq).segments == [] ==> ops[done + 1..] == OpsOfQueue(queue)
  {
    PendingHead(rq, queue);
    assert ops[done] == ops[done..][0] && ops[done + 1..] == ops[done..][1..];
    assert ops[..done + 1][..done] == ops[..done];
  }

  /** memcpy between two different arrays. */
  method Copy(dst: array<Byte>, at: nat, src: array<Byte>, from: nat, size: nat)
    requires dst != src && at + size <= dst.Length && from + size <= src.Length
    modifies dst
    ensures dst[..] == Splice(old(dst[..]), at, src[from..from + size])
  {
    for k := 0 to size
      invariant forall j :: 0 <= j < dst.Length ==>
        dst[j] == if at <= j < at + k then src[from + j - at] else old(dst[j])
    {
      dst[at + k] := src[from + k];
    }
  }

  // ---- what the disk and the buffers hold after any queue ----

  predicate Accepted(diskSize: nat, op: Op)
  {
    op.at + op.size <= diskSize
  }

  /** A write segment that passes the check covers disk byte `place`. */
  predicate Writes(diskSize: nat, op: Op, place: nat)
  {
    op.write && Accepted(diskSize, op) && op.at <= place < op.at + op.size
  }

  /** A read segment that passes the check has `address` in its buffer. */
  predicate Fills(diskSize: nat, op: Op, address: nat)
  {
    !op.write && Accepted(diskSize, op) && op.buffer <= address < op.buffer + op.size
  }

  /** The last accepted write segment covering a disk byte. */
  function LastWrite(diskSize: nat, ops: seq<Op>, place: nat): (r: Option<nat>)
    ensures r.Some? ==> r.value < |ops| && Writes(diskSize, ops[r.value], place)
    ensures forall k :: (if r.Some? then r.value + 1 else 0) <= k < |ops| ==> !Writes(diskSize, ops[k], place)
  {
    if ops == [] then None
    else if Writes(diskSize, ops[|ops| - 1], place) then Some(|ops| - 1)
    else LastWrite(diskSize, ops[..|ops| - 1], place)
  }

  /** The last accepted read segment whose buffer covers an address. */
  function LastRead(diskSize: nat, ops: seq<Op>, address: nat): (r: Option<nat>)
    ensures r.Some? ==> r.value < |ops| && Fills(diskSize, ops[r.value], address)
    ensures forall k :: (if r.Some? then r.value + 1 else 0) <= k < |ops| ==> !Fills(diskSize, ops[k], address)
  {
    if ops == [] then None
    else if Fills(diskSize, ops[|ops| - 1], address) then Some(|ops| - 1)
    else LastRead(diskSize, ops[..|ops| - 1], address)
  }

  lemma ServePlace(op: Op, st: Store, place: nat)
    requires OpFits(|st.disk|, |st.memory|, op) && place < |st.disk|
    ensures Writes(|st.disk|, op, place) ==> op.buffer + place - op.at < |st.memory|
    ensures Serve(op, st).disk[place] ==
      if Writes(|st.disk|, op, place) then st.memory[op.buffer + place - op.at] else st.disk[place]
  {
  }

  /** Each disk byte holds what the last accepted write covering it had in its buffer, or what it held before. */
  lemma {:induction false} DiskHolds(ops: seq<Op>, st: Store, place: nat)
    requires AllFit(|st.disk|, |st.memory|, ops) && place < |st.disk|
    ensures match LastWrite(|st.disk|, ops, place)
      case None => ServeAll(ops, st).disk[place] == st.disk[place]
      case Some(k) =>
        && ops[k].buffer + place - ops[k].at < |st.memory|
        && ServeAll(ops, st).disk[place]
           == ServeAll(ops[..k], st).memory[ops[k].buffer + place - ops[k].at]
  {
    if ops != [] {
      var before := ops[..|ops| - 1];
      ServePlace(ops[|ops| - 1], ServeAll(before, st), place);
      if Writes(|st.disk|, ops[|ops| - 1], place) {
        assert LastWrite(|st.disk|, ops, place) == Some(|ops| - 1);
      } else {
        DiskHolds(before, st, place);
        var w := LastWrite(|st.disk|, before, place);
        assert LastWrite(|st.disk|, ops, place) == w;
        if w.Some? {
          assert before[..w.value] == ops[..w.value] && before[w.value] == ops[w.value];
        }
      }
    }
  }

  lemma ServeAddress(op: Op, st: Store, address: nat)
    requires OpFits(|st.disk|, |st.memory|, op) && address < |st.memory|
    ensures Fills(|st.disk|, op, address) ==> op.at + address - op.buffer < |st.disk|
    ensures Serve(op, st).memory[address] ==
      if Fills(|st.disk|, op, address) then st.disk[op.at + address - op.buffer] else st.memory[address]
  {
  }

  /** Each buffer byte holds what the disk held when the last accepted read filled it, or what it held before. */
  lemma {:induction false} BufferHolds(ops: seq<Op>, st: Store, address: nat)
    requires AllFit(|st.disk|, |st.memory|, ops) && address < |st.memory|
    ensures match LastRead(|st.disk|, ops, address)
      case None => ServeAll(ops, st).memory[address] == st.memory[address]
      case Some(k) =>
        && ops[k].at + address - ops[k].buffer < |st.disk|
        && ServeAll(ops, st).memory[address]
           == ServeAll(ops[..k], st).disk[ops[k].at + address - ops[k].buffer]
  {
    if ops != [] {
      var before := ops[..|ops| - 1];
      ServeAddress(ops[|ops| - 1], ServeAll(before, st), address);
      if Fills(|st.disk|, ops[|ops| - 1], address) {
        assert LastRead(|st.disk|, ops, address) == Some(|ops| - 1);
      } else {
        BufferHolds(before, st, address);
        var r := LastRead(|st.disk|, before, address);
        assert LastRead(|st.disk|, ops, address) == r;
        if r.Some? {
          assert before[..r.value] == ops[..r.value] && before[r.value] == ops[r.value];
        }
      }
    }
  }

  /** The last accepted read of a buffer byte decides what it ends with. */
  lemma ReadGives(ops: seq<Op>, st: Store, k: nat, address: nat, place: int)
    requires AllFit(|st.disk|, |st.memory|, ops) && k < |ops| && address < |st.memory|
    requires LastRead(|st.disk|, ops, address) == Some(k)
    requires place == ops[k].at + address - ops[k].buffer
    ensures 0 <= place < |st.disk| && ServeAll(ops, st).memory[address] == ServeAll(ops[..k], st).disk[place]
  {
    assert Fills(|st.disk|, ops[k], address) && OpFits(|st.disk|, |st.memory|, ops[k]);
    assert 0 <= place < |st.disk|;
    BufferHolds(ops, st, address);
  }

  /** The last accepted write of a disk byte before segment k decides what segment k finds. */
  lemma WriteGives(ops: seq<Op>, st: Store, j: nat, k: nat, place: nat)
    requires AllFit(|st.disk|, |st.memory|, ops) && j < k < |ops| && place < |st.disk|
    requires LastWrite(|st.disk|, ops[..k], place) == Some(j)
    ensures ops[j].buffer + place - ops[j].at < |st.memory|
    ensures ServeAll(ops[..k], st).disk[place]
         == ServeAll(ops[..j], st).memory[ops[j].buffer + place - ops[j].at]
  {
    DiskHolds(ops[..k], st, place);
    assert ops[..k][..j] == ops[..j] && ops[..k][j] == ops[j];
  }

  /**
   * Write, then read back: segment k is the last to read into a buffer byte, and segment j the last
   * before it to write the disk byte it reads. Then at the end of the queue the reader's buffer holds
   * the byte the writer had in its own buffer when it was served.
   */
  lemma ReadBack(ops: seq<Op>, st: Store, j: nat, k: nat, address: nat, place: nat)
    requires AllFit(|st.disk|, |st.memory|, ops) && j < k < |ops| && address < |st.memory|
    requires LastRead(|st.disk|, ops, address) == Some(k)
    requires place == ops[k].at + address - ops[k].buffer
    requires LastWrite(|st.disk|, ops[..k], place) == Some(j)
    ensures ops[j].buffer + place - ops[j].at < |st.memory|
    ensures ServeAll(ops, st).memory[address]
         == ServeAll(ops[..j], st).memory[ops[j].buffer + place - ops[j].at]
  {
    ReadGives(ops, st, k, address, place);
    WriteGives(ops, st, j, k, place);
  }

  // ---- the same, told by the requests' own fields ----

  /** Where segment j of a request starts, in sectors. */
  function Position(rq: Request, j: nat): nat
    requires j <= |rq.segments|
  {
    rq.pos + Sectors(rq.segments[..j])
  }

  predicate IsSegment(queue: seq<Request>, i: nat, j: nat)
  {
    i < |queue| && j < |queue[i].segments|
  }

  /** Segment j of request i passes the check. */
  predicate Passes(diskSize: nat, queue: seq<Request>, i: nat, j: nat)
    requires IsSegment(queue, i, j)
  {
    !Rejected(diskSize, Position(queue[i], j), queue[i].segments[j].nrSectors)
  }

  predicate SegmentWrites(diskSize: nat, queue: seq<Request>, i: nat, j: nat, place: nat)
    requires IsSegment(queue, i, j)
  {
    var at := Offset(Position(queue[i], j));
    queue[i].write && Passes(diskSize, queue, i, j) && at <= place < at + Size(queue[i].segments[j].nrSectors)
  }

  predicate SegmentFills(diskSize: nat, queue: seq<Request>, i: nat, j: nat, address: nat)
    requires IsSegment(queue, i, j)
  {
    var segment := queue[i].segments[j];
    !queue[i].write && Passes(diskSize, queue, i, j)
    && segment.buffer <= address < segment.buffer + Size(segment.nrSectors)
  }

  /** Segment j of request i is the last to write a disk byte, by request and by place in the request. */
  ghost predicate LastToWrite(diskSize: nat, queue: seq<Request>, i: nat, j: nat, place: nat)
    requires IsSegment(queue, i, j)
  {
    && SegmentWrites(diskSize, queue, i, j, place)
    && forall i', j' :: IsSegment(queue, i', j') && Later(i, j, i', j') ==>
         !SegmentWrites(diskSize, queue, i', j', place)
  }

  ghost predicate LastToFill(diskSize: nat, queue: seq<Request>, i: nat, j: nat, address: nat)
    requires IsSegment(queue, i, j)
  {
    && SegmentFills(diskSize, queue, i, j, address)
    && forall i', j' :: IsSegment(queue, i', j') && Later(i, j, i', j') ==>
         !SegmentFills(diskSize, queue, i', j', address)
  }

  /** Where offset and size are exact, passing the check and covering a byte are a matter of whole sectors. */
  lemma WholeSectors(diskSize: nat, queue: seq<Request>, i: nat, j: nat, sector: nat, x: nat)
    requires IsSegment(queue, i, j) && x < 512
    requires Position(queue[i], j) < 0x80_0000 && queue[i].segments[j].nrSectors < 0x40_0000
    ensures var first, length := Position(queue[i], j), queue[i].segments[j].nrSectors;
      && (Passes(diskSize, queue, i, j) <==> first + length <= Capacity(diskSize))
      && (SegmentWrites(diskSize, queue, i, j, Bytes(sector) + x) <==>
            queue[i].write && first + length <= Capacity(diskSize) && first <= sector < first + length)
  {
    OffsetExact(Position(queue[i], j));
    SizeExact(queue[i].segments[j].nrSectors);
  }

  lemma OpsTellSegments(diskSize: nat, queue: seq<Request>, i: nat, j: nat, x: nat)
    requires IsSegment(queue, i, j)
    ensures var n := Place(queue, i, j);
      && n < |OpsOfQueue(queue)|
      && (Writes(diskSize, OpsOfQueue(queue)[n], x) <==> SegmentWrites(diskSize, queue, i, j, x))
      && (Fills(diskSize, OpsOfQueue(queue)[n], x) <==> SegmentFills(diskSize, queue, i, j, x))
      && OpsOfQueue(queue)[n].at == Offset(Position(queue[i], j))
      && OpsOfQueue(queue)[n].buffer == queue[i].segments[j].buffer
  {
    OpsOfQueueAt(queue, i, j);
    OpsOfAt(queue[i], j);
  }

  /** The last write of the queue that covers a disk byte, found among the requests. */
  lemma LastWriter(diskSize: nat, queue: seq<Request>, i: nat, j: nat, place: nat)
    requires IsSegment(queue, i, j) && LastToWrite(diskSize, queue, i, j, place)
    ensures LastWrite(diskSize, OpsOfQueue(queue), place) == Some(Place(queue, i, j))
  {
    var last := LastWrite(diskSize, OpsOfQueue(queue), place);
    OpsTellSegments(diskSize, queue, i, j, place);
    var i', j' := Locate(queue, last.value);
    OpsTellSegments(diskSize, queue, i', j', place);
    PlaceOrders(queue, i, j, i', j');
  }

  lemma LastReader(diskSize: nat, queue: seq<Request>, i: nat, j: nat, address: nat)
    requires IsSegment(queue, i, j) && LastToFill(diskSize, queue, i, j, address)
    ensures LastRead(diskSize, OpsOfQueue(queue), address) == Some(Place(queue, i, j))
  {
    var last := LastRead(diskSize, OpsOfQueue(queue), address);
    OpsTellSegments(diskSize, queue, i, j, address);
    var i', j' := Locate(queue, last.value);
    OpsTellSegments(diskSize, queue, i', j', address);
    PlaceOrders(queue, i, j, i', j');
  }

  /**
   * After a queue, a disk byte holds what the last write segment covering it had in its buffer once
   * everything before that segment had been served.
   */
  lemma DiskAfterQueue(queue: seq<Request>, st: Store, i: nat, j: nat, place: nat, from: int)
    requires AllFit(|st.disk|, |st.memory|, OpsOfQueue(queue)) && place < |st.disk|
    requires IsSegment(queue, i, j) && LastToWrite(|st.disk|, queue, i, j, place)
    requires from == queue[i].segments[j].buffer + place - Offset(Position(queue[i], j))
    ensures var ops, n := OpsOfQueue(queue), Place(queue, i, j);
      && n < |ops| && 0 <= from < |st.memory|
      && ServeAll(ops, st).disk[place] == ServeAll(ops[..n], st).memory[from]
  {
    LastWriter(|st.disk|, queue, i, j, place);
    OpsTellSegments(|st.disk|, queue, i, j, place);
    DiskHolds(OpsOfQueue(queue), st, place);
  }

  lemma DiskUntouched(queue: seq<Request>, st: Store, place: nat)
    requires AllFit(|st.disk|, |st.memory|, OpsOfQueue(queue)) && place < |st.disk|
    requires forall i, j :: IsSegment(queue, i, j) ==> !SegmentWrites(|st.disk|, queue, i, j, place)
    ensures ServeAll(OpsOfQueue(queue), st).disk[place] == st.disk[place]
  {
    DiskHolds(OpsOfQueue(queue), st, place);
    var last := LastWrite(|st.disk|, OpsOfQueue(queue), place);
    if last.Some? {
      var i, j := Locate(queue, last.value);
      OpsTellSegments(|st.disk|, queue, i, j, place);
      assert false;
    }
  }

  /** After a queue, a buffer byte holds what the disk held for the last read segment that filled it. */
  lemma BufferAfterQueue(queue: seq<Request>, st: Store, i: nat, j: nat, address: nat, from: int)
    requires AllFit(|st.disk|, |st.memory|, OpsOfQueue(queue)) && address < |st.memory|
    requires IsSegment(queue, i, j) && LastToFill(|st.disk|, queue, i, j, address)
    requires from == Offset(Position(queue[i], j)) + address - queue[i].segments[j].buffer
    ensures var ops, n := OpsOfQueue(queue), Place(queue, i, j);
      && n < |ops| && 0 <= from < |st.disk|
      && ServeAll(ops, st).memory[address] == ServeAll(ops[..n], st).disk[from]
  {
    LastReader(|st.disk|, queue, i, j, address);
    OpsTellSegments(|st.disk|, queue, i, j, address);
    ReadGives(OpsOfQueue(queue), st, Place(queue, i, j), address, from);
  }

  lemma BufferUntouched(queue: seq<Request>, st: Store, address: nat)
    requires AllFit(|st.disk|, |st.memory|, OpsOfQueue(queue)) && address < |st.memory|
    requires forall i, j :: IsSegment(queue, i, j) ==> !SegmentFills(|st.disk|, queue, i, j, address)
    ensures ServeAll(OpsOfQueue(queue), st).memory[address] == st.memory[address]
  {
    BufferHolds(OpsOfQueue(queue), st, address);
    var last := LastRead(|st.disk|, OpsOfQueue(queue), address);
    if last.Some? {
      var i, j := Locate(queue, last.value);
      OpsTellSegments(|st.disk|, queue, i, j, address);
      assert false;
    }
  }

  /** A segment that fails the check is completed without touching the disk or any buffer. */
  lemma RejectedSkipped(ops: seq<Op>, st: Store, k: nat)
    requires AllFit(|st.disk|, |st.memory|, ops) && k < |ops| && !Accepted(|st.disk|, ops[k])
    ensures ServeAll(ops[..k + 1], st) == ServeAll(ops[..k], st)
  {
    assert ops[..k + 1][..k] == ops[..k];
  }
}
