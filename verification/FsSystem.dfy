/** All partitions together: registration hands out storage, and every operation acts on one partition (filesystem_lib.c). */
module FsSystem {
  import opened Bytes
  import opened Units
  import opened FsTypes
  import opened FsSpec

  /** What registration is asked for. */
  datatype Request = Request(size: nat, dynamic: bool, crc: bool, elementLen: u16)

  /** Storage and the global variables of the filesystem. */
  datatype System = System(
    mem: seq<byte>, parts: seq<Partition>, iters: seq<Iterator>, number: nat, nextFree: nat)

  predicate Sized(g: Geometry, s: System) {
    && Regular(g) && TotalSize(g) == |s.mem| < 0x1_0000_0000
    && |s.parts| == |s.iters| == MAX_PARTITIONS
  }

  // ---- registration ----

  /** `filesystem_reset`: forget all partitions; the first one will begin behind the units of the swap page. */
  function Reset(g: Geometry, s: System): (r: (Ret, System))
    requires Regular(g)
  {
    var limits := UnitLimits(g, 0, SWAP_PAGE_SIZE);
    if limits.Invalid? then (Internal, s.(number := 0))
    else (Success, s.(number := 0, nextFree := limits.end + 1))
  }

  datatype Available = Unavailable | Available(size: nat)

  /** `filesystem_compute_available_size`: whole units, from a unit boundary on, as far as storage goes. */
  function AvailableSize(g: Geometry, start: nat, required: nat): (r: Available)
    requires Regular(g)
  {
    if start >= TotalSize(g) || required == 0 then Unavailable
    else
      var left := TotalSize(g) - start;
      var limits := UnitLimits(g, start, if left > required then required else left);
      if limits.Invalid? || limits.start != start then Unavailable
      else if limits.end + 1 < limits.start then Unavailable
      else Available(limits.end + 1 - limits.start)
  }

  /** The handle of the partition with a given index. */
  function HandleOf(index: nat, req: Request): (pid: u16)
    requires index < MAX_PARTITIONS
    ensures Index(pid) == index && (IsDynamic(pid) <==> req.dynamic) && (HasCrc(pid) <==> req.crc)
  {
    index + (if req.dynamic then 0x8000 else 0) + (if req.crc then 0x4000 else 0)
  }

  function ElementLen(req: Request): u16 { if req.dynamic then 0 else req.elementLen }

  datatype Registration = Registration(ret: Ret, sys: System, pid: u16, size: nat, writes: seq<WriteOp>)

  /** The record of a new partition before storage is looked at. */
  function NewRecord(s: System, req: Request, size: nat): Partition
    requires s.number < MAX_PARTITIONS && |s.parts| == MAX_PARTITIONS
  {
    FreshRecord(s.parts[s.number], HandleOf(s.number, req), s.nextFree, size, ElementLen(req))
  }

  /** `filesystem_register_partition`. */
  function Register(g: Geometry, s: System, req: Request): (r: Registration)
    requires Sized(g, s)
    ensures Sized(g, r.sys) && AllFit(|s.mem|, r.writes) && r.sys.mem == Apply(s.mem, r.writes)
  {
    hide Scan, TotalSize, Regular, UnitLimits;
    if s.number >= MAX_PARTITIONS then Registration(NoMem, s, 0, req.size, [])
    else if !req.dynamic && req.elementLen == 0 then Registration(InvalidParam, s, 0, req.size, [])
    else
      match AvailableSize(g, s.nextFree, req.size)
      case Unavailable => Registration(NoMem, s, 0, req.size, [])
      case Available(size) =>
        var pid := HandleOf(s.number, req);
        var blank := NewRecord(s, req, size);
        if size < FirstLen(pid) + ElementLen(req) then
          Registration(NoMem, s.(parts := s.parts[s.number := blank]), pid, size, [])
        else
          var found := Scan(s.mem, pid, blank);
          var s1 := s.(mem := Apply(s.mem, found.writes), parts := s.parts[s.number := found.part]);
          if found.ret != Success then Registration(found.ret, s1, pid, size, found.writes)
          else
            Registration(Success, s1.(number := s.number + 1, nextFree := s.nextFree + size), pid, size, found.writes)
  }

  // ---- operations on one partition ----

  /** A handle that a registration gave out. */
  predicate Handle(s: System, pid: u16) {
    Index(pid) < s.number <= |s.parts| && s.parts[Index(pid)].metadata.partitionId == pid
  }

  /** The system after an operation on the partition with handle `pid`. */
  function After(s: System, pid: u16, r: Outcome): System
    requires |s.parts| == |s.iters| == MAX_PARTITIONS && Index(pid) < MAX_PARTITIONS && AllFit(|s.mem|, r.writes)
  {
    s.(mem := Apply(s.mem, r.writes), parts := s.parts[Index(pid) := r.part], iters := s.iters[Index(pid) := r.iter])
  }

  function PartOf(s: System, pid: u16): Partition
    requires |s.parts| == MAX_PARTITIONS && Index(pid) < MAX_PARTITIONS
  {
    s.parts[Index(pid)]
  }

  function IterOf(s: System, pid: u16): Iterator
    requires |s.iters| == MAX_PARTITIONS && Index(pid) < MAX_PARTITIONS
  {
    s.iters[Index(pid)]
  }

  // ---- the layout ----

  /** What allocation guarantees: whole units, one partition behind the other, all behind the swap page. */
  ghost predicate Layout(g: Geometry, s: System) {
    && Sized(g, s) && s.number <= MAX_PARTITIONS
    && SWAP_PAGE_SIZE <= s.nextFree <= |s.mem| && IsBoundary(g, s.nextFree)
    && forall i :: 0 <= i < s.number ==> Allocated(g, s, i)
  }

  ghost predicate Allocated(g: Geometry, s: System, i: nat)
    requires i < s.number <= |s.parts|
  {
    var p := s.parts[i];
    && SWAP_PAGE_SIZE <= p.firstElementAddress && IsBoundary(g, p.firstElementAddress)
    && PartEnd(p) <= (if i + 1 < s.number then s.parts[i + 1].firstElementAddress else s.nextFree)
    && IsBoundary(g, PartEnd(p))
    && Index(p.metadata.partitionId) == i && FirstLen(p.metadata.partitionId) <= p.metadata.partitionSize
  }

  /** After a reset the layout is empty, and what is free begins at a unit boundary behind the swap page. */
  lemma ResetLaysOut(g: Geometry, s: System)
    requires Sized(g, s) && Reset(g, s).0 == Success
    ensures Layout(g, Reset(g, s).1)
  {
    LimitsAreSmallestCover(g, 0, SWAP_PAGE_SIZE, 0, 0);
  }

  /** The space handed out begins where asked, consists of whole units, and lies in storage. */
  lemma AvailableIsWholeUnits(g: Geometry, start: nat, required: nat)
    requires Regular(g) && AvailableSize(g, start, required).Available?
    ensures var size := AvailableSize(g, start, required).size;
      && IsBoundary(g, start) && IsBoundary(g, start + size) && start + size <= TotalSize(g)
      && (required <= size || start + size == TotalSize(g))
  {
    var left := TotalSize(g) - start;
    var n := if left > required then required else left;
    LimitsAreSmallestCover(g, start, n, 0, 0);
    hide IsBoundary, TotalSize, UnitStart, UnitEnd;
  }

  /** How much of what is asked for there is. */
  function AsFarAs(required: nat, left: nat): nat { if required < left then required else left }

  /**
   * Space is handed out exactly from a unit boundary inside storage on, and then the least run of whole units that covers what
   * is asked for, or what is left.
   */
  lemma AvailableIsLeast(g: Geometry, start: nat, required: nat)
    requires Regular(g)
    ensures AvailableSize(g, start, required).Available? <==> start < TotalSize(g) && required > 0 && IsBoundary(g, start)
    ensures AvailableSize(g, start, required).Available? ==>
              FirstBoundary(g, start + AsFarAs(required, TotalSize(g) - start), start + AvailableSize(g, start, required).size)
  {
    if start < TotalSize(g) && required > 0 {
      hide IsBoundary, TotalSize, UnitLimits, FirstBoundary, Regular;
      var n := AsFarAs(required, TotalSize(g) - start);
      LimitsEndAtFirst(g, start, n);
      LimitsAreSmallestCover(g, start, n, start, TotalSize(g));
      EndIsBoundary(g);
    }
  }

  lemma {:induction false} EndIsBoundary(g: Geometry)
    ensures IsBoundary(g, TotalSize(g))
  {
    if g != [] {
      EndIsBoundary(g[1..]);
    }
  }

  /** The swap page takes the least run of whole units that holds it. */
  lemma ResetTakesLeast(g: Geometry, s: System)
    requires Sized(g, s)
    ensures Reset(g, s).0 == (if SWAP_PAGE_SIZE <= |s.mem| then Success else Internal) && Reset(g, s).1.number == 0
    ensures SWAP_PAGE_SIZE <= |s.mem| ==> FirstBoundary(g, SWAP_PAGE_SIZE, Reset(g, s).1.nextFree)
  {
    if SWAP_PAGE_SIZE <= |s.mem| {
      LimitsEndAtFirst(g, 0, SWAP_PAGE_SIZE);
    }
  }

  /** What a registration that succeeds gives: place and size, and where the next partition will begin. */
  lemma RegisterTakesLeast(g: Geometry, s: System, req: Request)
    requires Sized(g, s) && Register(g, s, req).ret == Success
    ensures var r := Register(g, s, req);
      && s.number < MAX_PARTITIONS && s.nextFree < |s.mem| && req.size > 0 && IsBoundary(g, s.nextFree)
      && FirstBoundary(g, s.nextFree + AsFarAs(req.size, |s.mem| - s.nextFree), s.nextFree + r.size)
      && r.sys.nextFree == s.nextFree + r.size && r.sys.number == s.number + 1
      && r.sys.parts[s.number].firstElementAddress == s.nextFree
      && r.sys.parts[s.number].metadata.partitionSize == r.size
  {
    hide *;
    SuccessMeans(g, s, req);
    AvailableIsLeast(g, s.nextFree, req.size);
  }

  lemma SuccessMeans(g: Geometry, s: System, req: Request)
    requires Sized(g, s) && Register(g, s, req).ret == Success
    ensures var r := Register(g, s, req);
      && Regular(g) && TotalSize(g) == |s.mem|
      && s.number < MAX_PARTITIONS && AvailableSize(g, s.nextFree, req.size) == Available(r.size)
      && r.sys.nextFree == s.nextFree + r.size && r.sys.number == s.number + 1
      && r.sys.parts[s.number].firstElementAddress == s.nextFree
      && r.sys.parts[s.number].metadata.partitionSize == r.size
  {
    hide Scan, Apply, AvailableSize, UnitLimits, TotalSize, Regular, HeaderLen, ElementLen, AllFit, HandleOf;
  }

  /** The handle it gives: the number of the partition, and a bit for each of its kinds. */
  lemma RegisterGivesHandle(g: Geometry, s: System, req: Request)
    requires Sized(g, s) && Register(g, s, req).ret == Success
    ensures var r := Register(g, s, req);
      && r.pid == s.number + (if req.dynamic then 0x8000 else 0) + (if req.crc then 0x4000 else 0)
      && r.sys.parts[s.number].metadata.partitionId == r.pid
  {
    hide Scan, Apply, AvailableSize, UnitLimits, TotalSize, Regular, HeaderLen, ElementLen, AllFit;
  }

  /** One that fails leaves number and free address, and no registration touches the records of the others. */
  lemma RegisterSparesOthers(g: Geometry, s: System, req: Request)
    requires Sized(g, s)
    ensures var r := Register(g, s, req);
      && (r.ret != Success ==> r.sys.nextFree == s.nextFree && r.sys.number == s.number)
      && (forall i :: 0 <= i < MAX_PARTITIONS && i != s.number ==> r.sys.parts[i] == s.parts[i])
  {
    hide Scan, Apply, AvailableSize, UnitLimits, TotalSize, Regular, HeaderLen, ElementLen, AllFit, HandleOf;
  }

  /** What a registration answers before it looks at storage: too many partitions, an illegal length, no space. */
  lemma RegisterRefuses(g: Geometry, s: System, req: Request)
    requires Sized(g, s)
    ensures var ret := Register(g, s, req).ret;
      && (s.number >= 20 ==> ret == NoMem)
      && (s.number < 20 && !req.dynamic && req.elementLen == 0 ==> ret == InvalidParam)
      && (s.number < 20 && (req.dynamic || req.elementLen > 0) ==>
            (s.nextFree >= |s.mem| || req.size == 0 || !IsBoundary(g, s.nextFree) ==> ret == NoMem))
  {
    AvailableIsLeast(g, s.nextFree, req.size);
    hide Scan, Apply, AvailableSize, UnitLimits, Regular, HeaderLen, ElementLen, AllFit, HandleOf, IsBoundary;
  }

  /** On units of one byte a partition gets exactly what it asks for, as far as storage goes. */
  lemma RegisterTakesAsked(g: Geometry, s: System, req: Request)
    requires Sized(g, s) && ByteUnits(g) && Register(g, s, req).ret == Success
    ensures s.nextFree < |s.mem| && Register(g, s, req).size == AsFarAs(req.size, |s.mem| - s.nextFree)
  {
    RegisterTakesLeast(g, s, req);
    ByteBoundary(g, s.nextFree + AsFarAs(req.size, |s.mem| - s.nextFree));
    hide Register, IsBoundary;
  }

  /** A boundary has room behind it whenever storage does, so that registration fails only for want of space. */
  lemma BoundaryIsAvailable(g: Geometry, start: nat, required: nat)
    requires Regular(g) && IsBoundary(g, start) && start < TotalSize(g) && required > 0
    ensures AvailableSize(g, start, required).Available?
  {
    var left := TotalSize(g) - start;
    var n := if left > required then required else left;
    LimitsAreSmallestCover(g, start, n, 0, 0);
    UnitStartIsNearest(g, start, start);
    hide IsBoundary, TotalSize, UnitEnd;
  }

  /** Registration keeps the layout. */
  lemma RegisterKeepsLayout(g: Geometry, s: System, req: Request)
    requires Layout(g, s)
    ensures Layout(g, Register(g, s, req).sys)
  {
    hide Scan, IsBoundary, Apply, UnitLimits;
    var r := Register(g, s, req);
    if r.ret == Success {
      AvailableIsWholeUnits(g, s.nextFree, req.size);
    }
    hide AvailableSize, HandleOf;
    forall i | 0 <= i < r.sys.number ensures Allocated(g, r.sys, i) {
      if i < s.number {
        assert Allocated(g, s, i);
      }
    }
  }

  // ---- what the layout means ----

  lemma {:induction false} InOrder(g: Geometry, s: System, i: nat, j: nat)
    requires Layout(g, s) && i < j < s.number
    ensures PartEnd(s.parts[i]) <= s.parts[j].firstElementAddress
    decreases j
  {
    hide IsBoundary, TotalSize, Regular;
    assert Allocated(g, s, j - 1);
    if i < j - 1 {
      InOrder(g, s, i, j - 1);
    }
  }

  /** An address in one partition lies in a unit below that of an address in a later one. */
  lemma UnitsInOrder(g: Geometry, s: System, i: nat, j: nat, x: nat, y: nat)
    requires Layout(g, s) && i < j < s.number
    requires s.parts[i].firstElementAddress <= x < PartEnd(s.parts[i])
    requires s.parts[j].firstElementAddress <= y < PartEnd(s.parts[j])
    ensures Regular(g) && x < y < TotalSize(g)
    ensures UnitStart(g, x) <= UnitEnd(g, x) < UnitStart(g, y) <= UnitEnd(g, y)
  {
    InStorage(g, s, j);
    InOrder(g, s, i, j);
    assert Allocated(g, s, j);
    assert Regular(g);
    hide IsBoundary, UnitStart, UnitEnd, Sized, TotalSize, Regular, Layout;
    Apart(g, x, s.parts[j].firstElementAddress, y);
  }

  /** Two addresses in different partitions lie in different units. */
  lemma PartitionsShareNoUnit(g: Geometry, s: System, i: nat, j: nat, x: nat, y: nat)
    requires Layout(g, s) && i < s.number && j < s.number && i != j
    requires s.parts[i].firstElementAddress <= x < PartEnd(s.parts[i])
    requires s.parts[j].firstElementAddress <= y < PartEnd(s.parts[j])
    ensures Regular(g) && x < TotalSize(g) && y < TotalSize(g)
    ensures x != y && UnitStart(g, x) != UnitStart(g, y) && UnitEnd(g, x) != UnitEnd(g, y)
  {
    hide Layout, UnitStart, UnitEnd, TotalSize, Regular;
    if i < j {
      UnitsInOrder(g, s, i, j, x, y);
    } else {
      UnitsInOrder(g, s, j, i, y, x);
    }
  }

  /** A boundary between two addresses separates their units. */
  lemma Apart(g: Geometry, x: nat, b: nat, y: nat)
    requires Regular(g) && x < b <= y < TotalSize(g) && IsBoundary(g, b)
    ensures UnitStart(g, x) <= UnitEnd(g, x) < UnitStart(g, y) <= UnitEnd(g, y)
  {
    UnitEndIsNearest(g, x, b);
    UnitStartIsNearest(g, y, b);
    UnitEndIsNearest(g, y, b);
  }

  /** A partition lies in storage, and its units hold nothing of the swap page. */
  lemma InStorage(g: Geometry, s: System, i: nat)
    requires Layout(g, s) && i < s.number
    ensures PartEnd(s.parts[i]) <= s.nextFree <= TotalSize(g)
    ensures forall x :: SWAP_PAGE_SIZE <= s.parts[i].firstElementAddress <= x < TotalSize(g) ==>
              SWAP_PAGE_SIZE <= UnitStart(g, x)
    decreases s.number - i
  {
    hide IsBoundary, UnitStart;
    assert Allocated(g, s, i);
    if i + 1 < s.number {
      InStorage(g, s, i + 1);
      assert Allocated(g, s, i + 1);
    }
    forall x | s.parts[i].firstElementAddress <= x < TotalSize(g) ensures SWAP_PAGE_SIZE <= UnitStart(g, x) {
      UnitStartIsNearest(g, x, s.parts[i].firstElementAddress);
    }
  }

  /** Copies of different partitions in the swap page do not overlap, and lie in it. */
  lemma SwapSlotsApart(pid: u16, pid': u16)
    requires Index(pid) < MAX_PARTITIONS && Index(pid') < MAX_PARTITIONS
    ensures SwapEnd(pid) <= SWAP_PAGE_SIZE
    ensures Index(pid) < Index(pid') ==> SwapEnd(pid) <= SwapAddress(pid')
  {
  }
}
