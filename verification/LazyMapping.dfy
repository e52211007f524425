/**
 * The shared mapping of exp2/exp2.4/map_driver.c: processes map one kernel area whose pages lie in
 * scattered physical frames, and their page tables are filled one entry at a time by the fault
 * handler. The model runs any mix of processes, mappings, loads and stores, and compares it with
 * direct access to the area. Page size and page count are parameters.
 */
module LazyMapping {
  import opened Common

  const TWO_TO_64: int := 0x1_0000_0000_0000_0000

  datatype Config = Config(pageSize: nat, pageCount: nat)
  {
    predicate Valid() { pageSize > 0 }

    /** MAPLEN */
    function Length(): nat { pageSize * pageCount }
  }

  // ---- mmap ----

  datatype Flags = Flags(read: bool, write: bool, shared: bool, lockOnFault: bool)

  /** A vm_area_struct. `driven`: vm_ops points at the driver's operations. */
  datatype Vma = Vma(start: nat, end: nat, pgoff: nat, flags: Flags, driven: bool)

  datatype Errno = Ok | ENXIO | EINVAL

  predicate Fits(c: Config, vma: Vma)
  {
    vma.end - vma.start <= c.Length()
  }

  predicate Acceptable(c: Config, vma: Vma)
  {
    && Fits(c, vma)
    && (vma.flags.write ==> vma.flags.shared)
    && (vma.pgoff * c.pageSize) % TWO_TO_64 == 0
  }

  class VmArea {
    var vmStart: nat
    var vmEnd: nat
    var vmPgoff: nat
    var vmFlags: Flags
    var vmOpsSet: bool

    function Value(): Vma
      reads this
    {
      Vma(vmStart, vmEnd, vmPgoff, vmFlags, vmOpsSet)
    }

    constructor (v: Vma)
      ensures Value() == v
    {
      vmStart, vmEnd, vmPgoff, vmFlags, vmOpsSet := v.start, v.end, v.pgoff, v.flags, v.driven;
    }
  }

  /**
   * Accepts exactly the acceptable areas. An oversized or a private writable area is refused untouched;
   * a non-zero offset is refused after the lock flag has been set.
   */
  method MapdrvMmap(c: Config, vma: VmArea) returns (err: Errno)
    requires vma.vmStart <= vma.vmEnd
    modifies vma
    ensures var fits := old(vma.vmEnd) - old(vma.vmStart) <= c.pageSize * c.pageCount;
      var private := old(vma.vmFlags).write && !old(vma.vmFlags).shared;
      var aligned := (old(vma.vmPgoff) * c.pageSize) % TWO_TO_64 == 0;
      && err == (if !fits then ENXIO else if private then EINVAL else if !aligned then ENXIO else Ok)
      && vma.vmFlags == old(vma.vmFlags).(lockOnFault := old(vma.vmFlags).lockOnFault || (fits && !private))
    ensures vma.vmOpsSet == (err == Ok || old(vma.vmOpsSet))
    ensures vma.vmStart == old(vma.vmStart) && vma.vmEnd == old(vma.vmEnd) && vma.vmPgoff == old(vma.vmPgoff)
    ensures err == Ok <==> Acceptable(c, old(vma.Value()))
    ensures err == Ok ==> vma.Value() == Attached(old(vma.Value()))
  {
    var offset := (vma.vmPgoff * c.pageSize) % TWO_TO_64;
    var size := vma.vmEnd - vma.vmStart;
    if size > c.Length() {
      return ENXIO;
    }
    if vma.vmFlags.write && !vma.vmFlags.shared {
      return EINVAL;
    }
    vma.vmFlags := vma.vmFlags.(lockOnFault := true);
    if offset == 0 {
      vma.vmOpsSet := true;
    } else {
      return ENXIO;
    }
    return Ok;
  }

  /** What an accepted area looks like after mmap. */
  function Attached(vma: Vma): Vma
  {
    vma.(flags := vma.flags.(lockOnFault := true), driven := true)
  }

  // ---- the fault handler ----

  datatype FaultResult = SigBus | Page(pfn: nat)

  /** `pfns[i]` is the frame of the area's i-th page; None is a null vmalloc_area. */
  function MapFault(c: Config, pfns: Option<seq<nat>>, vma: Vma, address: nat): FaultResult
    requires c.Valid() && (pfns.Some? ==> |pfns.value| == c.pageCount)
  {
    var offset := (address - vma.start) % TWO_TO_64;
    if pfns.None? then SigBus
    else if offset >= c.Length() then SigBus
    else
      DivBelow(offset, c.pageSize, c.pageCount);
      Page(pfns.value[offset / c.pageSize])
  }

  /** A fault in the k-th page behind vm_start gets the area's k-th frame, and one beyond the area gets SIGBUS. */
  lemma MapFaultPage(c: Config, pfns: seq<nat>, vma: Vma, address: nat, k: nat)
    requires c.Valid() && |pfns| == c.pageCount
    requires k * c.pageSize <= (address - vma.start) % TWO_TO_64 < k * c.pageSize + c.pageSize
    ensures MapFault(c, Some(pfns), vma, address) == if k < c.pageCount then Page(pfns[k]) else SigBus
    ensures MapFault(c, None, vma, address) == SigBus
  {
    var offset := (address - vma.start) % TWO_TO_64;
    DivUnique(k, offset - k * c.pageSize, c.pageSize);
    if offset < c.Length() {
      DivBelow(offset, c.pageSize, c.pageCount);
    } else {
      Distribute(c.pageCount, k, c.pageSize);
      Multiple(c.pageSize, c.pageCount - k);
    }
  }

  class VmFault {
    const vma: VmArea
    const address: nat
    var page: Option<nat>

    constructor (vma: VmArea, address: nat)
      ensures this.vma == vma && this.address == address && page == None
    {
      this.vma, this.address, page := vma, address, None;
    }
  }

  /** map_fault: sets the page and returns 0, or leaves the fault alone and returns VM_FAULT_SIGBUS. */
  method HandleFault(c: Config, pfns: Option<seq<nat>>, vmf: VmFault) returns (sigbus: bool)
    requires c.Valid() && (pfns.Some? ==> |pfns.value| == c.pageCount)
    modifies vmf
    ensures sigbus <==> MapFault(c, pfns, vmf.vma.Value(), vmf.address).SigBus?
    ensures sigbus ==> vmf.page == old(vmf.page)
    ensures !sigbus ==> vmf.page == Some(MapFault(c, pfns, vmf.vma.Value(), vmf.address).pfn)
  {
    var offset := (vmf.address - vmf.vma.vmStart) % TWO_TO_64;
    if pfns.None? {
      return true;
    }
    if offset >= c.Length() {
      return true;
    }
    DivBelow(offset, c.pageSize, c.pageCount);
    vmf.page := Some(pfns.value[offset / c.pageSize]);
    return false;
  }

  // ---- the system: page tables filled on demand ----

  datatype Slot = Slot(pid: nat, page: nat)

  /** `areas` says which mapping a process's virtual page belongs to, `ptes` which frame its entry holds. */
  datatype System = System(frames: seq<string>, pfns: seq<nat>, areas: map<Slot, Vma>, ptes: map<Slot, nat>)

  datatype Op =
    | Mmap(pid: nat, first: nat, pages: nat, pgoff: nat, flags: Flags)
    | Munmap(pid: nat, va: nat)
    | Prefault(pid: nat, va: nat)
    | Load(pid: nat, va: nat)
    | Store(pid: nat, va: nat, data: char)

  datatype Result = Done | Refused | Value(data: char) | Segv | Bus

  function Slots(pid: nat, first: nat, pages: nat): set<Slot>
  {
    set i | first <= i < first + pages :: Slot(pid, i)
  }

  /** The slots of the mapping that contains `slot`. */
  function Mapping(areas: map<Slot, Vma>, slot: Slot): set<Slot>
    requires slot in areas
  {
    set t | t in areas && t.pid == slot.pid && areas[t] == areas[slot]
  }

  function NewVma(c: Config, op: Op): Vma
    requires op.Mmap?
  {
    Vma(op.first * c.pageSize, (op.first + op.pages) * c.pageSize, op.pgoff, op.flags, false)
  }

  /** The kernel offers the driver a free, non-empty, page-aligned range of user addresses. */
  predicate Mappable(c: Config, areas: map<Slot, Vma>, op: Op)
    requires op.Mmap?
  {
    && op.pages > 0 && (op.first + op.pages) * c.pageSize <= TWO_TO_64
    && Slots(op.pid, op.first, op.pages) !! areas.Keys
    && Acceptable(c, NewVma(c, op))
  }

  function AddVma(c: Config, areas: map<Slot, Vma>, op: Op): map<Slot, Vma>
    requires op.Mmap?
  {
    areas + map t | t in Slots(op.pid, op.first, op.pages) :: Attached(NewVma(c, op))
  }

  predicate Permitted(areas: map<Slot, Vma>, slot: Slot, write: bool)
  {
    slot in areas && if write then areas[slot].flags.write else areas[slot].flags.read
  }

  ghost predicate AreasInv(c: Config, areas: map<Slot, Vma>)
    requires c.Valid()
  {
    forall t :: t in areas ==>
      var v := areas[t];
      && v.start % c.pageSize == 0 && v.end <= TWO_TO_64
      && v.start <= t.page * c.pageSize && (t.page + 1) * c.pageSize <= v.end
      && v.end - v.start <= c.Length() && v.driven
  }

  ghost predicate FramesInv(c: Config, s: System)
  {
    && |s.pfns| == c.pageCount
    && (forall i :: 0 <= i < |s.pfns| ==> s.pfns[i] < |s.frames|)
    && (forall i, j :: 0 <= i < j < |s.pfns| ==> s.pfns[i] != s.pfns[j])
    && (forall f :: 0 <= f < |s.frames| ==> |s.frames[f]| == c.pageSize)
  }

  /** The page of the area that a slot stands for. */
  function AreaPage(c: Config, areas: map<Slot, Vma>, slot: Slot): int
    requires c.Valid() && slot in areas
  {
    slot.page - areas[slot].start / c.pageSize
  }

  /** Every filled entry belongs to a mapping and holds the frame of the right page of the area. */
  ghost predicate PtesInv(c: Config, s: System)
    requires c.Valid()
  {
    forall t :: t in s.ptes ==>
      && t in s.areas
      && 0 <= AreaPage(c, s.areas, t) < |s.pfns|
      && s.ptes[t] == s.pfns[AreaPage(c, s.areas, t)]
  }

  ghost predicate Inv(c: Config, s: System)
  {
    c.Valid() && FramesInv(c, s) && AreasInv(c, s.areas) && PtesInv(c, s)
  }

  // ---- arithmetic of pages ----

  lemma Multiple(p: nat, d: int)
    requires p > 0
    ensures d >= 1 ==> d * p >= p
    ensures d <= -1 ==> d * p <= 0 - p
    ensures d >= 0 ==> d * p >= 0
  {
  }

  lemma Distribute(a: int, b: int, p: nat)
    ensures (a - b) * p == a * p - b * p
  {
  }

  lemma NextPage(q: nat, p: nat)
    ensures (q + 1) * p == q * p + p
  {
  }

  lemma DivMod(x: nat, p: nat)
    requires p > 0
    ensures x == (x / p) * p + x % p && x % p < p
  {
  }

  /** Page number and position in the page identify an offset. */
  lemma SameSpot(x: nat, y: nat, p: nat)
    requires p > 0
    ensures x % p < p
    ensures x == y <==> x / p == y / p && x % p == y % p
  {
    DivMod(x, p);
    DivMod(y, p);
  }

  lemma DivBelow(x: nat, p: nat, n: nat)
    requires p > 0 && x < p * n
    ensures x / p < n
  {
    DivMod(x, p);
    Distribute(x / p, n, p);
    Multiple(p, x / p - n);
  }

  lemma DivUnique(q: nat, r: nat, p: nat)
    requires p > 0 && r < p
    ensures (q * p + r) / p == q && (q * p + r) % p == r
  {
    var x := q * p + r;
    DivMod(x, p);
    Distribute(x / p, q, p);
    Multiple(p, x / p - q);
  }

  /** Subtracting a page-aligned start shifts the page number and keeps the position in the page. */
  lemma Shift(va: nat, start: nat, p: nat)
    requires p > 0 && start % p == 0 && start <= (va / p) * p
    ensures start <= va && start / p <= va / p
    ensures (va - start) / p == va / p - start / p && (va - start) % p == va % p
    ensures ((va / p) * p - start) / p == va / p - start / p
  {
    var a, b := va / p, start / p;
    DivMod(va, p);
    DivMod(start, p);
    Distribute(a, b, p);
    Multiple(p, a - b);
    DivUnique(a - b, va % p, p);
    DivUnique(a - b, 0, p);
  }

  /** The fault handler is called with the page-aligned address of a page of an accepted mapping. */
  lemma FaultFindsPage(c: Config, s: System, slot: Slot)
    requires c.Valid() && FramesInv(c, s) && AreasInv(c, s.areas) && slot in s.areas
    ensures 0 <= AreaPage(c, s.areas, slot) < |s.pfns|
    ensures MapFault(c, Some(s.pfns), s.areas[slot], slot.page * c.pageSize)
         == Page(s.pfns[AreaPage(c, s.areas, slot)])
  {
    var p, v := c.pageSize, s.areas[slot];
    DivUnique(slot.page, 0, p);
    Shift(slot.page * p, v.start, p);
    NextPage(slot.page, p);
    var offset := slot.page * p - v.start;
    DivBelow(offset, p, c.pageCount);
  }

  /**
   * Resolving an access: a filled entry is used as it is, a missing one goes through the fault handler,
   * which the kernel finds only through the area's operations.
   */
  datatype Walk = Resolved(pfn: nat, sys: System) | Failed(why: Result)

  function Resolve(c: Config, s: System, slot: Slot, write: bool): Walk
    requires c.Valid() && |s.pfns| == c.pageCount
  {
    if !Permitted(s.areas, slot, write) then Failed(Segv)
    else if slot in s.ptes then Resolved(s.ptes[slot], s)
    else if !s.areas[slot].driven then Failed(Bus)
    else match MapFault(c, Some(s.pfns), s.areas[slot], slot.page * c.pageSize)
      case SigBus => Failed(Bus)
      case Page(pfn) => Resolved(pfn, s.(ptes := s.ptes[slot := pfn]))
  }

  lemma ResolveInv(c: Config, s: System, slot: Slot, write: bool)
    requires Inv(c, s)
    ensures Resolve(c, s, slot, write).Failed? <==> !Permitted(s.areas, slot, write)
    ensures Resolve(c, s, slot, write).Failed? ==> Resolve(c, s, slot, write).why == Segv
    ensures Resolve(c, s, slot, write).Resolved? ==>
      var r := Resolve(c, s, slot, write);
      && Inv(c, r.sys) && r.sys == s.(ptes := r.sys.ptes)
      && 0 <= AreaPage(c, s.areas, slot) < |s.pfns| && r.pfn == s.pfns[AreaPage(c, s.areas, slot)]
  {
    if Permitted(s.areas, slot, write) {
      FaultFindsPage(c, s, slot);
    }
  }

  function Exec(c: Config, s: System, op: Op): (System, Result)
    requires Inv(c, s)
  {
    match op
    case Mmap(_, _, _, _, _) =>
      if Mappable(c, s.areas, op) then (s.(areas := AddVma(c, s.areas, op)), Done) else (s, Refused)
    case Munmap(pid, va) =>
      var slot := Slot(pid, va / c.pageSize);
      if slot !in s.areas then (s, Refused)
      else
        var gone := Mapping(s.areas, slot);
        (s.(areas := s.areas - gone, ptes := s.ptes - gone), Done)
    case Prefault(pid, va) =>
      (match Resolve(c, s, Slot(pid, va / c.pageSize), false)
       case Failed(why) => (s, why)
       case Resolved(_, s') => (s', Done))
    case Load(pid, va) =>
      ResolveInv(c, s, Slot(pid, va / c.pageSize), false);
      (match Resolve(c, s, Slot(pid, va / c.pageSize), false)
       case Failed(why) => (s, why)
       case Resolved(pfn, s') => (s', Value(s'.frames[pfn][va % c.pageSize])))
    case Store(pid, va, data) =>
      ResolveInv(c, s, Slot(pid, va / c.pageSize), true);
      (match Resolve(c, s, Slot(pid, va / c.pageSize), true)
       case Failed(why) => (s, why)
       case Resolved(pfn, s') =>
         (s'.(frames := s'.frames[pfn := s'.frames[pfn][va % c.pageSize := data]]), Done))
  }

  // ---- the reference: direct access to one area ----

  datatype Direct = Direct(area: string, areas: map<Slot, Vma>)

  ghost predicate DirectInv(c: Config, d: Direct)
  {
    c.Valid() && |d.area| == c.Length() && AreasInv(c, d.areas)
  }

  lemma OffsetInside(c: Config, areas: map<Slot, Vma>, slot: Slot, va: nat)
    requires c.Valid() && AreasInv(c, areas) && slot in areas && slot.page == va / c.pageSize
    ensures 0 <= va - areas[slot].start < c.Length()
  {
    DivMod(va, c.pageSize);
    NextPage(slot.page, c.pageSize);
  }

  function Put(area: string, at: nat, data: char): (r: string)
    requires at < |area|
    ensures |r| == |area|
  {
    area[at := data]
  }

  function DirectExec(c: Config, d: Direct, op: Op): (Direct, Result)
    requires DirectInv(c, d)
  {
    match op
    case Mmap(_, _, _, _, _) =>
      if Mappable(c, d.areas, op) then (d.(areas := AddVma(c, d.areas, op)), Done) else (d, Refused)
    case Munmap(pid, va) =>
      var slot := Slot(pid, va / c.pageSize);
      if slot !in d.areas then (d, Refused) else (d.(areas := d.areas - Mapping(d.areas, slot)), Done)
    case Prefault(pid, va) =>
      if Permitted(d.areas, Slot(pid, va / c.pageSize), false) then (d, Done) else (d, Segv)
    case Load(pid, va) =>
      var slot := Slot(pid, va / c.pageSize);
      if !Permitted(d.areas, slot, false) then (d, Segv)
      else
        OffsetInside(c, d.areas, slot, va);
        (d, Value(d.area[va - d.areas[slot].start]))
    case Store(pid, va, data) =>
      var slot := Slot(pid, va / c.pageSize);
      if !Permitted(d.areas, slot, true) then (d, Segv)
      else
        OffsetInside(c, d.areas, slot, va);
        (d.(area := Put(d.area, va - d.areas[slot].start, data)), Done)
  }

  // ---- lazy access agrees with direct access ----

  function AreaByte(c: Config, s: System, offset: nat): char
    requires c.Valid() && FramesInv(c, s) && offset / c.pageSize < c.pageCount
  {
    s.frames[s.pfns[offset / c.pageSize]][offset % c.pageSize]
  }

  /** The area as the kernel sees it through its own contiguous addresses. */
  ghost function View(c: Config, s: System): Direct
    requires c.Valid() && FramesInv(c, s)
  {
    Direct(seq(c.Length(), (offset: nat) requires offset < c.Length() =>
                 (DivBelow(offset, c.pageSize, c.pageCount); AreaByte(c, s, offset))), s.areas)
  }

  lemma AddVmaInv(c: Config, areas: map<Slot, Vma>, op: Op)
    requires c.Valid() && AreasInv(c, areas) && op.Mmap? && Mappable(c, areas, op)
    ensures AreasInv(c, AddVma(c, areas, op))
  {
    var v, p := NewVma(c, op), c.pageSize;
    forall t | t in Slots(op.pid, op.first, op.pages)
      ensures v.start <= t.page * p && (t.page + 1) * p <= v.end
    {
      Distribute(t.page, op.first, p);
      Multiple(p, t.page - op.first);
      Distribute(op.first + op.pages, t.page + 1, p);
      Multiple(p, op.first + op.pages - t.page - 1);
    }
    DivUnique(op.first, 0, p);
  }

  lemma MmapInv(c: Config, s: System, op: Op)
    requires Inv(c, s) && op.Mmap? && Mappable(c, s.areas, op)
    ensures Inv(c, s.(areas := AddVma(c, s.areas, op)))
  {
    AddVmaInv(c, s.areas, op);
    forall t | t in s.areas
      ensures t in AddVma(c, s.areas, op) && AddVma(c, s.areas, op)[t] == s.areas[t]
    {
      assert t !in Slots(op.pid, op.first, op.pages);
    }
  }

  lemma MmapRefines(c: Config, s: System, op: Op)
    requires Inv(c, s) && op.Mmap?
    ensures Inv(c, Exec(c, s, op).0)
    ensures View(c, Exec(c, s, op).0) == DirectExec(c, View(c, s), op).0
    ensures Exec(c, s, op).1 == DirectExec(c, View(c, s), op).1
  {
    if Mappable(c, s.areas, op) {
      MmapInv(c, s, op);
    }
  }

  lemma MunmapRefines(c: Config, s: System, op: Op)
    requires Inv(c, s) && op.Munmap?
    ensures Inv(c, Exec(c, s, op).0)
    ensures View(c, Exec(c, s, op).0) == DirectExec(c, View(c, s), op).0
    ensures Exec(c, s, op).1 == DirectExec(c, View(c, s), op).1
  {
  }

  lemma PrefaultRefines(c: Config, s: System, op: Op)
    requires Inv(c, s) && op.Prefault?
    ensures Inv(c, Exec(c, s, op).0)
    ensures View(c, Exec(c, s, op).0) == DirectExec(c, View(c, s), op).0
    ensures Exec(c, s, op).1 == DirectExec(c, View(c, s), op).1
  {
    ResolveInv(c, s, Slot(op.pid, op.va / c.pageSize), false);
  }

  /** The byte a resolved access reaches is the area's byte at the same offset. */
  lemma SameByte(c: Config, s: System, slot: Slot, va: nat)
    requires Inv(c, s) && slot in s.areas && slot.page == va / c.pageSize
    ensures 0 <= va - s.areas[slot].start < c.Length()
    ensures (va - s.areas[slot].start) / c.pageSize == AreaPage(c, s.areas, slot)
    ensures (va - s.areas[slot].start) % c.pageSize == va % c.pageSize
  {
    OffsetInside(c, s.areas, slot, va);
    Shift(va, s.areas[slot].start, c.pageSize);
  }

  lemma LoadRefines(c: Config, s: System, op: Op)
    requires Inv(c, s) && op.Load?
    ensures Inv(c, Exec(c, s, op).0)
    ensures View(c, Exec(c, s, op).0) == DirectExec(c, View(c, s), op).0
    ensures Exec(c, s, op).1 == DirectExec(c, View(c, s), op).1
  {
    var slot := Slot(op.pid, op.va / c.pageSize);
    ResolveInv(c, s, slot, false);
    if Permitted(s.areas, slot, false) {
      SameByte(c, s, slot, op.va);
    }
  }

  function Poke(s: System, f: nat, at: nat, data: char): System
    requires f < |s.frames| && at < |s.frames[f]|
  {
    s.(frames := s.frames[f := s.frames[f][at := data]])
  }

  /** Distinct pages lie in distinct frames. */
  lemma PokePage(c: Config, s: System, i: nat, at: nat, data: char, j: nat, x: nat)
    requires FramesInv(c, s) && i < |s.pfns| && j < |s.pfns| && at < c.pageSize && x < c.pageSize
    ensures FramesInv(c, Poke(s, s.pfns[i], at, data))
    ensures Poke(s, s.pfns[i], at, data).frames[s.pfns[j]][x]
         == if i == j && at == x then data else s.frames[s.pfns[j]][x]
  {
  }

  lemma PokeByte(c: Config, s: System, offset: nat, data: char, o: nat)
    requires c.Valid() && FramesInv(c, s) && o / c.pageSize < |s.pfns| && offset / c.pageSize < |s.pfns|
    ensures var s' := Poke(s, s.pfns[offset / c.pageSize], offset % c.pageSize, data);
      FramesInv(c, s') && AreaByte(c, s', o) == if o == offset then data else AreaByte(c, s, o)
  {
    SameSpot(offset, o, c.pageSize);
    SameSpot(o, offset, c.pageSize);
    PokePage(c, s, offset / c.pageSize, offset % c.pageSize, data, o / c.pageSize, o % c.pageSize);
  }

  /** Writing one byte of one frame changes exactly one byte of the area. */
  lemma PokeChangesOne(c: Config, s: System, offset: nat, data: char)
    requires Inv(c, s) && offset < c.Length() && offset / c.pageSize < |s.pfns|
    ensures var s' := Poke(s, s.pfns[offset / c.pageSize], offset % c.pageSize, data);
      Inv(c, s') && View(c, s').area == View(c, s).area[offset := data]
  {
    var s' := Poke(s, s.pfns[offset / c.pageSize], offset % c.pageSize, data);
    PokeByte(c, s, offset, data, offset);
    forall o: nat | o < c.Length()
      ensures View(c, s').area[o] == if o == offset then data else View(c, s).area[o]
    {
      DivBelow(o, c.pageSize, c.pageCount);
      PokeByte(c, s, offset, data, o);
    }
  }

  lemma StoreRefines(c: Config, s: System, op: Op)
    requires Inv(c, s) && op.Store?
    ensures Inv(c, Exec(c, s, op).0)
    ensures View(c, Exec(c, s, op).0) == DirectExec(c, View(c, s), op).0
    ensures Exec(c, s, op).1 == DirectExec(c, View(c, s), op).1
  {
    var slot := Slot(op.pid, op.va / c.pageSize);
    ResolveInv(c, s, slot, true);
    if Permitted(s.areas, slot, true) {
      SameByte(c, s, slot, op.va);
      var s' := Resolve(c, s, slot, true).sys;
      PokeChangesOne(c, s', op.va - s.areas[slot].start, op.data);
    }
  }

  lemma ExecRefines(c: Config, s: System, op: Op)
    requires Inv(c, s)
    ensures Inv(c, Exec(c, s, op).0)
    ensures View(c, Exec(c, s, op).0) == DirectExec(c, View(c, s), op).0
    ensures Exec(c, s, op).1 == DirectExec(c, View(c, s), op).1
  {
    match op {
      case Mmap(_, _, _, _, _) => MmapRefines(c, s, op);
      case Munmap(_, _) => MunmapRefines(c, s, op);
      case Prefault(_, _) => PrefaultRefines(c, s, op);
      case Load(_, _) => LoadRefines(c, s, op);
      case Store(_, _, _) => StoreRefines(c, s, op);
    }
  }

  lemma FewerAreas(c: Config, areas: map<Slot, Vma>, gone: set<Slot>)
    requires c.Valid() && AreasInv(c, areas)
    ensures AreasInv(c, areas - gone)
  {
  }

  lemma DirectAccessInv(c: Config, d: Direct, op: Op)
    requires DirectInv(c, d) && !op.Mmap? && !op.Munmap?
    ensures DirectExec(c, d, op).0.areas == d.areas
    ensures |DirectExec(c, d, op).0.area| == |d.area|
  {
    if op.Store? && Permitted(d.areas, Slot(op.pid, op.va / c.pageSize), true) {
      OffsetInside(c, d.areas, Slot(op.pid, op.va / c.pageSize), op.va);
    } else {
      assert DirectExec(c, d, op).0 == d;
    }
  }

  lemma DirectExecInv(c: Config, d: Direct, op: Op)
    requires DirectInv(c, d)
    ensures DirectInv(c, DirectExec(c, d, op).0)
  {
    if op.Mmap? {
      if Mappable(c, d.areas, op) {
        AddVmaInv(c, d.areas, op);
      }
    } else if op.Munmap? {
      if Slot(op.pid, op.va / c.pageSize) in d.areas {
        FewerAreas(c, d.areas, Mapping(d.areas, Slot(op.pid, op.va / c.pageSize)));
      }
    } else {
      DirectAccessInv(c, d, op);
    }
  }

  /** The results of a whole history of operations, by any processes in any order. */
  function Run(c: Config, s: System, ops: seq<Op>): (System, seq<Result>)
    requires Inv(c, s)
    decreases |ops|
  {
    if ops == [] then (s, []) else
      ExecRefines(c, s, ops[0]);
      var (s', first) := Exec(c, s, ops[0]);
      var (end, rest) := Run(c, s', ops[1..]);
      (end, [first] + rest)
  }

  function DirectRun(c: Config, d: Direct, ops: seq<Op>): (Direct, seq<Result>)
    requires DirectInv(c, d)
    decreases |ops|
  {
    if ops == [] then (d, []) else
      DirectExecInv(c, d, ops[0]);
      var (d', first) := DirectExec(c, d, ops[0]);
      var (end, rest) := DirectRun(c, d', ops[1..]);
      (end, [first] + rest)
  }

  /** Over every history, lazily filled page tables give the results of direct access and leave the same area. */
  lemma {:induction false} LazyEqualsDirect(c: Config, s: System, ops: seq<Op>)
    requires Inv(c, s)
    ensures Run(c, s, ops).1 == DirectRun(c, View(c, s), ops).1
    ensures Inv(c, Run(c, s, ops).0) && View(c, Run(c, s, ops).0) == DirectRun(c, View(c, s), ops).0
    decreases |ops|
  {
    if ops != [] {
      ExecRefines(c, s, ops[0]);
      LazyEqualsDirect(c, Exec(c, s, ops[0]).0, ops[1..]);
    }
  }

  /** No access in any history gets SIGBUS: a fault inside an accepted mapping always finds its page. */
  lemma {:induction false} NeverSigbus(c: Config, s: System, ops: seq<Op>)
    requires Inv(c, s)
    ensures Bus !in Run(c, s, ops).1
    decreases |ops|
  {
    if ops != [] {
      ExecRefines(c, s, ops[0]);
      NeverSigbus(c, Exec(c, s, ops[0]).0, ops[1..]);
    }
  }

  /** A byte stored by one process is what any process loads at the same offset of the area. */
  lemma StoreThenLoad(c: Config, s: System, store: Op, load: Op)
    requires Inv(c, s) && store.Store? && load.Load?
    requires var a, b := Slot(store.pid, store.va / c.pageSize), Slot(load.pid, load.va / c.pageSize);
      && Permitted(s.areas, a, true) && Permitted(s.areas, b, false)
      && store.va - s.areas[a].start == load.va - s.areas[b].start
    ensures Exec(c, s, store).1 == Done && Inv(c, Exec(c, s, store).0)
    ensures Exec(c, Exec(c, s, store).0, load).1 == Value(store.data)
  {
    StoreRefines(c, s, store);
    LoadRefines(c, Exec(c, s, store).0, load);
    OffsetInside(c, s.areas, Slot(store.pid, store.va / c.pageSize), store.va);
  }

  // ---- what each operation does, in its own terms ----

  /** Which mmap calls succeed, and what they add. */
  lemma MmapEffect(c: Config, s: System, op: Op)
    requires Inv(c, s) && op.Mmap?
    ensures var (after, result) := Exec(c, s, op);
      var ok :=
        && op.pages > 0 && (op.first + op.pages) * c.pageSize <= TWO_TO_64
        && (forall i :: op.first <= i < op.first + op.pages ==> Slot(op.pid, i) !in s.areas)
        && op.pages * c.pageSize <= c.pageSize * c.pageCount && (op.flags.write ==> op.flags.shared)
        && (op.pgoff * c.pageSize) % TWO_TO_64 == 0;
      && result == (if ok then Done else Refused)
      && after == s.(areas := after.areas)
      && (forall t :: t in after.areas <==>
            t in s.areas || (ok && t.pid == op.pid && op.first <= t.page < op.first + op.pages))
      && (forall t :: t in after.areas ==>
            after.areas[t] ==
            if t in s.areas then s.areas[t]
            else Vma(op.first * c.pageSize, (op.first + op.pages) * c.pageSize, op.pgoff,
                     op.flags.(lockOnFault := true), true))
  {
    Distribute(op.first + op.pages, op.first, c.pageSize);
    var slots := Slots(op.pid, op.first, op.pages);
    assert (forall i :: op.first <= i < op.first + op.pages ==> Slot(op.pid, i) !in s.areas) <==>
      slots !! s.areas.Keys by {
      assert forall i :: op.first <= i < op.first + op.pages ==> Slot(op.pid, i) in slots;
    }
  }

  /** An munmap removes the whole mapping around its address, with its entries, and nothing else. */
  lemma MunmapEffect(c: Config, s: System, op: Op)
    requires Inv(c, s) && op.Munmap?
    ensures var (after, result) := Exec(c, s, op);
      var slot := Slot(op.pid, op.va / c.pageSize);
      && result == (if slot in s.areas then Done else Refused)
      && after.frames == s.frames && after.pfns == s.pfns
      && (forall t :: t in after.areas <==>
            t in s.areas && !(slot in s.areas && t.pid == op.pid && s.areas[t] == s.areas[slot]))
      && (forall t :: t in after.areas ==> after.areas[t] == s.areas[t])
      && (forall t :: t in after.ptes <==> t in s.ptes && t in after.areas)
      && (forall t :: t in after.ptes ==> after.ptes[t] == s.ptes[t])
  {
  }

  /** A load fails only without read permission, and otherwise gives the area's byte at its offset. */
  lemma LoadEffect(c: Config, s: System, op: Op)
    requires Inv(c, s) && op.Load?
    ensures Inv(c, Exec(c, s, op).0) && View(c, Exec(c, s, op).0) == View(c, s)
    ensures var slot := Slot(op.pid, op.va / c.pageSize);
      if slot in s.areas && s.areas[slot].flags.read then
        var offset := op.va - s.areas[slot].start;
        0 <= offset < |View(c, s).area| && Exec(c, s, op).1 == Value(View(c, s).area[offset])
      else
        Exec(c, s, op).1 == Segv
  {
    LoadRefines(c, s, op);
    var slot := Slot(op.pid, op.va / c.pageSize);
    if slot in s.areas {
      OffsetInside(c, s.areas, slot, op.va);
    }
  }

  /** A store fails only without write permission, and otherwise replaces the area's byte at its offset. */
  lemma StoreEffect(c: Config, s: System, op: Op)
    requires Inv(c, s) && op.Store?
    ensures Inv(c, Exec(c, s, op).0)
    ensures var slot := Slot(op.pid, op.va / c.pageSize);
      if slot in s.areas && s.areas[slot].flags.write then
        var offset := op.va - s.areas[slot].start;
        && 0 <= offset < |View(c, s).area| && Exec(c, s, op).1 == Done
        && View(c, Exec(c, s, op).0) == View(c, s).(area := View(c, s).area[offset := op.data])
      else
        Exec(c, s, op) == (s, Segv)
  {
    StoreRefines(c, s, op);
    var slot := Slot(op.pid, op.va / c.pageSize);
    if slot in s.areas {
      OffsetInside(c, s.areas, slot, op.va);
    }
    ResolveInv(c, s, slot, true);
  }

  lemma PrefaultEffect(c: Config, s: System, op: Op)
    requires Inv(c, s) && op.Prefault?
    ensures Inv(c, Exec(c, s, op).0) && View(c, Exec(c, s, op).0) == View(c, s)
    ensures var slot := Slot(op.pid, op.va / c.pageSize);
      Exec(c, s, op).1 == if slot in s.areas && s.areas[slot].flags.read then Done else Segv
  {
    PrefaultRefines(c, s, op);
  }

  // ---- module initialisation ----

  function Digit(d: nat): char
    requires d < 10
  {
    '0' + d as char
  }

  /** What sprintf writes for %d. */
  function Decimal(n: nat): (r: string)
    ensures r != []
  {
    if n < 10 then [Digit(n)] else Decimal(n / 10) + [Digit(n % 10)]
  }

  function Parse(s: string): int
  {
    if s == [] then 0 else 10 * Parse(s[..|s| - 1]) + (s[|s| - 1] as int - '0' as int)
  }

  lemma {:induction false} ParseDecimal(n: nat)
    ensures Parse(Decimal(n)) == n
  {
    if n >= 10 {
      ParseDecimal(n / 10);
      assert Decimal(n)[..|Decimal(n)| - 1] == Decimal(n / 10);
    }
  }

  /** Digits only, and no leading zero. */
  lemma {:induction false} DecimalDigits(n: nat)
    ensures forall k :: 0 <= k < |Decimal(n)| ==> '0' <= Decimal(n)[k] <= '9'
    ensures Decimal(n)[0] == '0' <==> n == 0
  {
    if n >= 10 {
      DecimalDigits(n / 10);
    }
  }

  function Label(i: nat): string
  {
    "test " + Decimal(i)
  }

  lemma LabelReads(i: nat)
    ensures Label(i)[..5] == "test " && Parse(Label(i)[5..]) == i
  {
    ParseDecimal(i);
  }

  /** The pages can be told apart by the text init gives them. */
  lemma LabelsDiffer(i: nat, j: nat)
    requires Label(i) == Label(j)
    ensures i == j
  {
    assert Label(i)[5..] == Decimal(i) && Label(j)[5..] == Decimal(j);
    ParseDecimal(i);
    ParseDecimal(j);
  }

  /** The driver's own sizes: ten 4096-byte pages, each with room for its text. */
  const DRIVER := Config(4096, 10)

  lemma DriverLabelsFit(i: nat)
    requires 1 <= i <= DRIVER.pageCount
    ensures |Label(i)| < DRIVER.pageSize
  {
    assert i >= 10 ==> Decimal(i) == Decimal(1) + [Digit(0)];
  }

  /** A frame after sprintf has put the i-th text at its start. */
  function Labelled(frame: string, i: nat): (r: string)
    requires |Label(i)| < |frame|
    ensures |r| == |frame|
  {
    Label(i) + ['\0'] + frame[|Label(i)| + 1..]
  }

  /** The text and its NUL at the start, and the rest as it was. */
  lemma LabelledReads(frame: string, i: nat)
    requires |Label(i)| < |frame|
    ensures var r, n := Labelled(frame, i), |Label(i)|;
      && r[..5] == "test " && Parse(r[5..n]) == i && r[n] == '\0' && r[n + 1..] == frame[n + 1..]
  {
    LabelReads(i);
    var r, n := Labelled(frame, i), |Label(i)|;
    assert r[..n] == Label(i);
    assert r[..5] == Label(i)[..5] && r[5..n] == Label(i)[5..];
  }

  lemma PageInside(c: Config, k: nat)
    requires c.Valid() && k * c.pageSize < c.Length()
    ensures k < c.pageCount && (k * c.pageSize) / c.pageSize == k
    ensures (k + 1) * c.pageSize == k * c.pageSize + c.pageSize
  {
    DivUnique(k, 0, c.pageSize);
    DivBelow(k * c.pageSize, c.pageSize, c.pageCount);
    NextPage(k, c.pageSize);
  }

  lemma PagesDone(c: Config, k: nat)
    requires c.Valid() && k * c.pageSize >= c.Length() && k <= c.pageCount
    ensures k == c.pageCount
  {
    Distribute(c.pageCount, k, c.pageSize);
    Multiple(c.pageSize, c.pageCount - k);
  }

  class Module {
    const c: Config
    const pfns: seq<nat>
    var frames: seq<string>

    ghost predicate Valid()
      reads this
    {
      Inv(c, System(frames, pfns, map[], map[]))
    }

    /** What vmalloc provides: frames for every page of the area, with unknown contents. */
    constructor (c: Config, pfns: seq<nat>, frames: seq<string>)
      requires c.Valid() && FramesInv(c, System(frames, pfns, map[], map[]))
      ensures Valid() && this.c == c && this.pfns == pfns && this.frames == frames
    {
      this.c, this.pfns, this.frames := c, pfns, frames;
    }

    method LabelPage(k: nat, i: nat)
      requires Valid() && k < c.pageCount && |Label(i)| < c.pageSize
      modifies this
      ensures Valid() && frames == old(frames)[pfns[k] := Labelled(old(frames)[pfns[k]], i)]
    {
      frames := frames[pfns[k] := Labelled(frames[pfns[k]], i)];
    }

    /** The init loop labels page k of the area "test k+1" and writes nothing else. */
    method MapdrvInit()
      requires Valid()
      requires forall i :: 1 <= i <= c.pageCount ==> |Label(i)| < c.pageSize
      modifies this
      ensures Valid()
      ensures forall k :: 0 <= k < c.pageCount ==>
        frames[pfns[k]] == Labelled(old(frames)[pfns[k]], k + 1)
      ensures |frames| == |old(frames)|
      ensures forall f :: 0 <= f < |frames| && f !in pfns ==> frames[f] == old(frames)[f]
    {
      var virtAddr := 0;
      var i := 1;
      while virtAddr < c.Length()
        invariant 1 <= i <= c.pageCount + 1 && virtAddr == (i - 1) * c.pageSize
        invariant Valid() && |frames| == |old(frames)|
        invariant forall k :: 0 <= k < i - 1 ==>
          frames[pfns[k]] == Labelled(old(frames)[pfns[k]], k + 1)
        invariant forall k :: i - 1 <= k < c.pageCount ==> frames[pfns[k]] == old(frames)[pfns[k]]
        invariant forall f :: 0 <= f < |frames| && f !in pfns ==> frames[f] == old(frames)[f]
        decreases c.Length() - virtAddr
      {
        PageInside(c, i - 1);
        LabelPage(virtAddr / c.pageSize, i);
        i := i + 1;
        virtAddr := virtAddr + c.pageSize;
      }
      PagesDone(c, i - 1);
    }
  }
}
