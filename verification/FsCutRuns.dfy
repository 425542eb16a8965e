/** Runs of stores, clears, restarts and power cuts: a first header that was ever complete is never lost. */
module FsCutRuns {
  import opened Bytes
  import opened Words
  import opened Crc16
  import opened Units
  import opened FsTypes
  import opened FsSpec
  import opened FsLog
  import opened FsStore
  import opened FsKeep
  import opened FsClear
  import opened FsRecovery
  import opened FsPowerCut

  // ---- cutting a clear ----

  /** A clear renews the two copies with erased bytes. */
  lemma ClearRenews(g: Geometry, mem: seq<byte>, pid: u16, p: Partition, it: Iterator)
    returns (backup: seq<WriteOp>)
    requires ByteUnits(g) && TotalSize(g) == |mem| && Orderly(mem, pid, p)
    ensures var r := ClearPartition(g, mem, pid, p, it);
      && Renewal(mem, pid, p, [], backup, ErasedBlob(pid), [])
      && r.writes == RenewalWrites(p, [], backup, ErasedBlob(pid), [])
      && !r.part.hasFirstElement && r.part.latestElementAddress == r.part.firstElementAddress == p.firstElementAddress
      && r.part.metadata == p.metadata && r.ret == Success
  {
    OrderlyIsStable(mem, pid, p);
    ReadIsFind(mem, pid, p);
    RoomForCopies(mem, pid, p);
    hide ReadFirst, FindFirst, Judge, Backup, ErasedBlob, Apply, HeaderLen, SwapAddress, Registered, InOrder, TotalSize, ByteUnits;
    backup := Backup(g, mem, SwapAddress(pid), ErasedBlob(pid));
    BackupInSlot(g, mem, SwapAddress(pid), ErasedBlob(pid));
    ApplyNothing(mem);
    assert [] + backup == backup;
  }

  lemma ClearedForRequest(mem: seq<byte>, pid: u16, p: Partition, backup: seq<WriteOp>, q: Partition)
    requires Renewal(mem, pid, p, [], backup, ErasedBlob(pid), []) && q.firstElementAddress == p.firstElementAddress
    ensures Placed(mem, pid, q) && Renewal(mem, pid, q, [], backup, ErasedBlob(pid), [])
    ensures RenewalWrites(q, [], backup, ErasedBlob(pid), []) == RenewalWrites(p, [], backup, ErasedBlob(pid), [])
  {
    hide HeaderLen, ErasedBlob;
  }

  /** Wherever the supply fails during a clear, the next registration finds the old first header or none. */
  lemma CutClear(g: Geometry, mem: seq<byte>, pid: u16, p: Partition, it: Iterator, mem': seq<byte>, q: Partition)
    requires ByteUnits(g) && TotalSize(g) == |mem| && Orderly(mem, pid, p) && SameRequest(pid, p, q)
    requires Placed(mem, pid, q) && Cut(mem, ClearPartition(g, mem, pid, p, it).writes, mem', pid, q)
    ensures |mem'| == |mem| && FindFirst(mem', pid, q) in {FindFirst(mem, pid, q), Nothing}
  {
    hide *;
    OrderlyFind(mem, pid, p, q);
    RequestPlaced(pid, p, q);
    var backup := ClearRenews(g, mem, pid, p, it);
    ClearedForRequest(mem, pid, p, backup, q);
    CutErased(mem, pid, q, backup, mem');
  }

  lemma RequestPlaced(pid: u16, p: Partition, q: Partition)
    requires SameRequest(pid, p, q)
    ensures q.firstElementAddress == p.firstElementAddress
  {
  }

  lemma CutErased(mem: seq<byte>, pid: u16, q: Partition, backup: seq<WriteOp>, mem': seq<byte>)
    requires Placed(mem, pid, q) && Renewal(mem, pid, q, [], backup, ErasedBlob(pid), [])
    requires Judge(pid, q, StartCopy(mem, pid, q)) == BadCrc ==> !Judge(pid, q, SwapCopy(mem, pid, q)).Good?
    requires var ws := RenewalWrites(q, [], backup, ErasedBlob(pid), []); AllFit(|mem|, ws) && Cut(mem, ws, mem', pid, q)
    ensures |mem'| == |mem| && FindFirst(mem', pid, q) in {FindFirst(mem, pid, q), Nothing}
  {
    hide Judge, ErasedBlob, Renewal, RenewalWrites, AllFit, Cut, StartCopy, SwapCopy, Apply, Placed, HeaderLen;
    ErasedIsBad(pid, q);
    CutRenewal(mem, pid, q, [], backup, ErasedBlob(pid), [], mem');
  }

  lemma ErasedInOrder(mem: seq<byte>, pid: u16, p: Partition)
    requires Registered(mem, pid, p) && Placed(mem, pid, p)
    requires StartCopy(mem, pid, p) == ErasedBlob(pid) && SwapCopy(mem, pid, p) == ErasedBlob(pid)
    requires !p.hasFirstElement && p.latestElementAddress == p.firstElementAddress
    ensures Orderly(mem, pid, p)
  {
    hide Judge, ErasedBlob, StartCopy, SwapCopy, Registered, Placed, HeaderLen;
    ErasedIsBad(pid, p);
  }

  /** A completed clear leaves an orderly, empty partition. */
  lemma ClearKeepsOrder(g: Geometry, mem: seq<byte>, pid: u16, p: Partition, it: Iterator)
    requires ByteUnits(g) && TotalSize(g) == |mem| && Orderly(mem, pid, p)
    ensures var r := ClearPartition(g, mem, pid, p, it);
      && Orderly(Apply(mem, r.writes), pid, r.part) && SameRequest(pid, p, r.part) && !r.part.hasFirstElement
  {
    var r := ClearPartition(g, mem, pid, p, it);
    var mem' := Apply(mem, r.writes);
    hide *;
    var backup := ClearRenews(g, mem, pid, p, it);
    RenewalFits(mem, pid, p, [], backup, ErasedBlob(pid), []);
    CompleteRenewal(mem, pid, p, [], backup, ErasedBlob(pid), []);
    SamePlace(mem, mem', pid, p);
    PlacedAlike(mem', pid, p, r.part);
    ErasedInOrder(mem', pid, r.part);
  }

  // ---- power-up ----

  /** The record with which registration begins. */
  predicate Blank(mem: seq<byte>, pid: u16, q: Partition) {
    Registered(mem, pid, q) && q.latestElementAddress == q.firstElementAddress
  }

  /** Restoring the copy at the start. */
  lemma RestoreFinds(mem: seq<byte>, pid: u16, q: Partition)
    requires Placed(mem, pid, q)
    ensures var r := ReadFirst(mem, pid, q);
            var mem1 := Apply(mem, r.writes);
      && Placed(mem1, pid, q) && FindFirst(mem1, pid, q) == FindFirst(mem, pid, q)
      && (r.writes == [] || r.writes == [WriteOp(q.firstElementAddress, SwapCopy(mem, pid, q))])
      && (r.ret == NotFound ==> mem1 == mem)
      && (r.ret == Success ==> Judge(pid, q, StartCopy(mem1, pid, q)) == Good(r.part.metadata, r.header))
      && SwapCopy(mem1, pid, q) == SwapCopy(mem, pid, q)
      && (r.ret == Success || r.ret == NotFound)
  {
    hide Judge, HeaderLen, SwapAddress;
    ApplyNothing(mem);
    var copy := SwapCopy(mem, pid, q);
    WrittenCopies(mem, pid, q, copy);
    assert Apply(Write(mem, q.firstElementAddress, copy), [WriteOp(q.firstElementAddress, copy)][1..])
        == Write(mem, q.firstElementAddress, copy);
  }

  lemma CutWriteOfStart(mem: seq<byte>, pid: u16, q: Partition, blob: seq<byte>, mem': seq<byte>)
    requires Placed(mem, pid, q) && |blob| == FirstLen(pid) && AllFit(|mem|, [WriteOp(q.firstElementAddress, blob)])
    requires Cut(mem, [WriteOp(q.firstElementAddress, blob)], mem', pid, q)
    ensures |mem'| == |mem| && SwapCopy(mem', pid, q) == SwapCopy(mem, pid, q)
    ensures TornCopy(pid, q, StartCopy(mem, pid, q), blob, StartCopy(mem', pid, q))
  {
    var w := WriteOp(q.firstElementAddress, blob);
    CutOfOne(mem, w, mem', pid, q);
    hide Judge, HeaderLen, StartCopy, SwapCopy, Torn, Placed, Cut, Write, SwapAddress;
    if Torn(mem, w, mem', pid, q) {
      TornCopies(mem, pid, q, blob, mem');
    }
    WrittenCopies(mem, pid, q, blob);
  }

  /** A cut of the restoration: the copy in the swap page is still there. */
  lemma CutRestore(mem: seq<byte>, pid: u16, q: Partition, mem': seq<byte>)
    requires Placed(mem, pid, q) && Cut(mem, ReadFirst(mem, pid, q).writes, mem', pid, q)
    ensures |mem'| == |mem| && FindFirst(mem', pid, q) == FindFirst(mem, pid, q)
  {
    RestoreFinds(mem, pid, q);
    RestoreOnlyBad(mem, pid, q);
    var r := ReadFirst(mem, pid, q);
    if r.writes != [] {
      hide *;
      CutWriteOfStart(mem, pid, q, SwapCopy(mem, pid, q), mem');
    } else {
      hide Judge, ReadFirst, Placed, FindFirst, Torn;
    }
  }

  lemma RestoreOnlyBad(mem: seq<byte>, pid: u16, q: Partition)
    requires Placed(mem, pid, q)
    ensures ReadFirst(mem, pid, q).writes != [] ==>
              Judge(pid, q, StartCopy(mem, pid, q)) == BadCrc && Judge(pid, q, SwapCopy(mem, pid, q)).Good?
  {
    hide Judge, HeaderLen, SwapAddress;
  }

  /** Walking to the latest element writes nothing once the first header is in order. */
  lemma {:induction false} WalkIsQuiet(mem: seq<byte>, pid: u16, p: Partition, firstLen: u16, address: nat, id: u16, len: u16)
    requires p.firstElementAddress <= address <= |mem| && Stable(mem, pid, p)
    ensures var r := WalkToLatest(mem, pid, p, firstLen, address, id, len);
      && r.writes == [] && r.part == p
      && (r.address == address || address + FullHeaderLen(pid, p.firstElementAddress, address) <= r.address <= |mem|)
    decreases |mem| - address
  {
    hide Stable, NextHeader, HeaderLen, Xor16, SameButMetadata;
    StableNext(mem, pid, p, address, id, len);
    NextIsFurther(mem, pid, p, address, id, len);
    ApplyNothing(mem);
    var n := NextHeader(mem, pid, p, address, id, len);
    if n.ret == Success && n.address > address {
      var nextLen := if IsDynamic(pid) then Xor16(len, n.header.previousXorCurrent) else firstLen;
      WalkIsQuiet(mem, pid, p, firstLen, n.address, n.header.recordId, nextLen);
    }
  }

  lemma NextIsFurther(mem: seq<byte>, pid: u16, p: Partition, address: nat, id: u16, len: u16)
    requires p.firstElementAddress <= address
    ensures var n := NextHeader(mem, pid, p, address, id, len);
            n.ret == Success && n.address > address ==>
              n.address == address + FullHeaderLen(pid, p.firstElementAddress, address) + len <= |mem|
  {
    hide ReadHeader, HeaderLen, NeighbourLen, SameButMetadata, Apply;
  }

  /** The record registration works with once it has read the first header. */
  lemma FoundRecord(mem: seq<byte>, pid: u16, q: Partition)
    requires Blank(mem, pid, q) && ReadFirst(mem, pid, q).ret == Success
    ensures var r := ReadFirst(mem, pid, q);
            var mem1 := Apply(mem, r.writes);
      && r.part == q.(metadata := r.part.metadata) && SameRequest(pid, q, r.part)
      && Registered(mem1, pid, r.part) && Placed(mem1, pid, r.part)
      && Judge(pid, r.part, StartCopy(mem1, pid, r.part)) == Good(r.part.metadata, r.header)
  {
    var r := ReadFirst(mem, pid, q);
    var mem1 := Apply(mem, r.writes);
    RegisteredIsPlaced(mem, pid, q);
    GoodIsRequested(mem, pid, q);
    hide *;
    RestoreFinds(mem, pid, q);
    BlankRegistered(mem, mem1, pid, q, r.part);
    RequestPlaced(pid, q, r.part);
    PlacedAlike(mem1, pid, q, r.part);
    SameVerdict(pid, q, r.part, StartCopy(mem1, pid, q));
  }

  lemma GoodIsRequested(mem: seq<byte>, pid: u16, q: Partition)
    requires ReadFirst(mem, pid, q).ret == Success
    ensures var r := ReadFirst(mem, pid, q); r.part == q.(metadata := r.part.metadata) && SameRequest(pid, q, r.part)
  {
    hide DeserializeMetadata, DeserializeHeader, BlobCrc, HeaderLen, SwapAddress;
  }

  lemma BlankRegistered(mem: seq<byte>, mem1: seq<byte>, pid: u16, q: Partition, p: Partition)
    requires Blank(mem, pid, q) && |mem1| == |mem| && SameRequest(pid, q, p)
    ensures Registered(mem1, pid, p)
  {
  }

  /** The search for the latest element begins and ends with the record it is given. */
  lemma LatestIsQuiet(mem: seq<byte>, pid: u16, p: Partition)
    requires Stable(mem, pid, p) && ReadFirst(mem, pid, p).ret == Success && p.firstElementAddress <= |mem|
    ensures var r := FindLatest(mem, pid, p);
      && r.writes == [] && r.part == p
      && (r.address == p.firstElementAddress || p.firstElementAddress + FirstLen(pid) <= r.address <= |mem|)
  {
    hide ReadFirst, WalkToLatest, HeaderLen;
    ApplyNothing(mem);
    var f := ReadHeader(mem, pid, p, p.firstElementAddress);
    var len := p.metadata.firstElementLen;
    WalkIsQuiet(mem, pid, p, len, p.firstElementAddress, f.header.recordId, len);
    hide SameButMetadata;
  }

  lemma OrderlyBoot(mem: seq<byte>, pid: u16, p: Partition, h: Header, q: Partition)
    requires Registered(mem, pid, p) && Placed(mem, pid, p)
    requires Judge(pid, p, StartCopy(mem, pid, p)) == Good(p.metadata, h)
    requires q.metadata == p.metadata && q.firstElementAddress == p.firstElementAddress && q.hasFirstElement
    requires q.latestElementAddress == q.firstElementAddress
          || p.firstElementAddress + FirstLen(pid) <= q.latestElementAddress <= |mem|
    ensures Orderly(mem, pid, q) && SameRequest(pid, p, q)
  {
    assert SameRequest(pid, p, q);
    PlacedAlike(mem, pid, p, q);
    SameVerdict(pid, p, q, StartCopy(mem, pid, p));
    hide Judge, HeaderLen, SwapAddress, StartCopy, SwapCopy;
  }

  /** What a registration that finds a first header leaves behind. */
  lemma BootFound(mem: seq<byte>, pid: u16, q: Partition)
    requires Blank(mem, pid, q) && ReadFirst(mem, pid, q).ret == Success
    ensures Scan(mem, pid, q).writes == ReadFirst(mem, pid, q).writes
    ensures var r := Scan(mem, pid, q);
            r.ret == Success ==> Orderly(Apply(mem, r.writes), pid, r.part) && SameRequest(pid, q, r.part)
  {
    var f := ReadFirst(mem, pid, q);
    var mem1 := Apply(mem, f.writes);
    var r := Scan(mem, pid, q);
    FoundRecord(mem, pid, q);
    hide Registered, Judge, FindLatest, Orderly, Blank, StartCopy, ReadFirst, Stable, Placed, HeaderLen, Apply;
    assert ReadHeader(mem, pid, q, q.firstElementAddress) == f;
    hide ReadHeader;
    InStorage(mem1, pid, f.part);
    LatestIsQuiet(mem1, pid, f.part);
    assert f.writes + [] == f.writes;
    if r.ret == Success {
      OrderlyBoot(mem1, pid, f.part, f.header, r.part);
    }
  }

  lemma InStorage(mem: seq<byte>, pid: u16, p: Partition)
    requires Registered(mem, pid, p)
    ensures p.firstElementAddress <= |mem|
  {
  }

  lemma BootNothing(mem: seq<byte>, pid: u16, q: Partition)
    requires Blank(mem, pid, q) && ReadFirst(mem, pid, q).ret == NotFound
    ensures var r := Scan(mem, pid, q);
      && r.writes == [] && ReadFirst(mem, pid, q).writes == []
      && Orderly(mem, pid, r.part) && SameRequest(pid, q, r.part)
  {
    RegisteredIsPlaced(mem, pid, q);
    ReadIsFind(mem, pid, q);
    EmptyOrderly(mem, pid, q);
    hide Orderly, FindFirst, ReadFirst, FindLatest, Registered, Placed;
  }

  lemma EmptyOrderly(mem: seq<byte>, pid: u16, q: Partition)
    requires Blank(mem, pid, q) && Placed(mem, pid, q) && FindFirst(mem, pid, q).Nothing?
    ensures var p := q.(hasFirstElement := false); Orderly(mem, pid, p) && SameRequest(pid, q, p)
  {
    var p := q.(hasFirstElement := false);
    PlacedAlike(mem, pid, q, p);
    assert SameRequest(pid, q, p);
    SameVerdict(pid, q, p, StartCopy(mem, pid, q));
    SameVerdict(pid, q, p, SwapCopy(mem, pid, q));
    hide Judge, HeaderLen, SwapAddress, StartCopy, SwapCopy;
  }

  /** Power-up finds what it finds, however often the restoration is cut; when it succeeds, the record is in order. */
  lemma Boot(mem: seq<byte>, pid: u16, q: Partition)
    requires Blank(mem, pid, q) && Placed(mem, pid, q)
    ensures Scan(mem, pid, q).writes == ReadFirst(mem, pid, q).writes
    ensures var r := Scan(mem, pid, q);
            var mem1 := Apply(mem, r.writes);
      && Placed(mem1, pid, q) && FindFirst(mem1, pid, q) == FindFirst(mem, pid, q)
      && (r.ret == Success ==> Orderly(mem1, pid, r.part) && SameRequest(pid, q, r.part))
  {
    ApplyNothing(mem);
    RestoreFinds(mem, pid, q);
    hide *;
    if ReadFirst(mem, pid, q).ret == Success {
      BootFound(mem, pid, q);
    } else {
      BootNothing(mem, pid, q);
    }
  }

  // ---- runs ----

  /** A partition at work, or the storage of a badge without supply. */
  datatype Phase = Running(mem: seq<byte>, part: Partition) | Off(mem: seq<byte>)

  /** What may happen; `left` is what a cut leaves in storage. */
  datatype Event =
    | Store(it: Iterator, data: seq<byte>, len: u16)
    | StoreCut(it: Iterator, data: seq<byte>, len: u16, left: seq<byte>)
    | Clear(it: Iterator)
    | ClearCut(it: Iterator, left: seq<byte>)
    | PowerUp
    | PowerUpCut(left: seq<byte>)

  predicate Clears(ev: Event) { ev.Clear? || ev.ClearCut? }

  ghost predicate Inv(g: Geometry, pid: u16, q: Partition, s: Phase) {
    && ByteUnits(g) && TotalSize(g) == |s.mem| && Blank(s.mem, pid, q) && Placed(s.mem, pid, q)
    && (s.Running? ==> Orderly(s.mem, pid, s.part) && SameRequest(pid, s.part, q))
  }

  /** One event, of a partition that is always registered with the record `q`. */
  ghost predicate Step(g: Geometry, pid: u16, q: Partition, s: Phase, ev: Event, t: Phase) {
    ByteUnits(g) && TotalSize(g) == |s.mem| && Placed(s.mem, pid, q) &&
    match ev
    case Store(it, data, len) =>
      && s.Running? && CanStore(g, s.mem, pid, s.part, data, len)
      && (var r := StoreElement(g, s.mem, pid, s.part, it, data, len);
          t == Running(Apply(s.mem, r.writes), r.part))
    case StoreCut(it, data, len, left) =>
      && s.Running? && CanStore(g, s.mem, pid, s.part, data, len)
      && Cut(s.mem, StoreElement(g, s.mem, pid, s.part, it, data, len).writes, left, pid, q)
      && t == Off(left)
    case Clear(it) =>
      && s.Running? && Registered(s.mem, pid, s.part)
      && (var r := ClearPartition(g, s.mem, pid, s.part, it);
          t == Running(Apply(s.mem, r.writes), r.part))
    case ClearCut(it, left) =>
      && s.Running? && Registered(s.mem, pid, s.part)
      && Cut(s.mem, ClearPartition(g, s.mem, pid, s.part, it).writes, left, pid, q)
      && t == Off(left)
    case PowerUp =>
      && s.Off?
      && (var r := Scan(s.mem, pid, q);
          r.ret == Success && t == Running(Apply(s.mem, r.writes), r.part))
    case PowerUpCut(left) =>
      && s.Off? && Cut(s.mem, Scan(s.mem, pid, q).writes, left, pid, q)
      && t == Off(left)
  }

  /** What the next registration would find. */
  function Finds(pid: u16, q: Partition, s: Phase): Find
    requires Placed(s.mem, pid, q)
  {
    FindFirst(s.mem, pid, q)
  }

  lemma BlankStays(mem: seq<byte>, mem': seq<byte>, pid: u16, q: Partition)
    requires Blank(mem, pid, q) && |mem'| == |mem|
    ensures Blank(mem', pid, q) && Placed(mem', pid, q)
  {
    RegisteredIsPlaced(mem', pid, q);
  }

  /** What every step keeps: the invariant, and the first header unless it is cleared. */
  ghost predicate Keeps(g: Geometry, pid: u16, q: Partition, s: Phase, cleared: bool, t: Phase)
    requires Inv(g, pid, q, s)
  {
    && Inv(g, pid, q, t) && |t.mem| == |s.mem|
    && (Finds(pid, q, s).Found? && !cleared ==> Finds(pid, q, t).Found?)
  }

  lemma RunningKeeps(g: Geometry, pid: u16, q: Partition, s: Phase, cleared: bool, mem: seq<byte>, part: Partition)
    requires Inv(g, pid, q, s) && s.Running? && |mem| == |s.mem|
    requires Orderly(mem, pid, part) && SameRequest(pid, s.part, part)
    requires s.part.hasFirstElement && !cleared ==> part.hasFirstElement
    ensures Keeps(g, pid, q, s, cleared, Running(mem, part))
  {
    hide Blank, Placed, Orderly, FindFirst, ByteUnits, TotalSize, SameRequest;
    BlankStays(s.mem, mem, pid, q);
    OrderlyFind(s.mem, pid, s.part, q);
    RequestTransitive(pid, s.part, q, part);
    OrderlyFind(mem, pid, part, q);
  }

  lemma OffKeeps(g: Geometry, pid: u16, q: Partition, s: Phase, cleared: bool, mem: seq<byte>)
    requires Inv(g, pid, q, s) && |mem| == |s.mem| && Placed(mem, pid, q)
    requires Finds(pid, q, s).Found? && !cleared ==> FindFirst(mem, pid, q).Found?
    ensures Keeps(g, pid, q, s, cleared, Off(mem))
  {
    hide Blank, Placed, Orderly, FindFirst, ByteUnits, TotalSize, SameRequest;
    BlankStays(s.mem, mem, pid, q);
  }

  lemma StoreStep(g: Geometry, pid: u16, q: Partition, s: Phase, it: Iterator, data: seq<byte>, len: u16)
    requires Inv(g, pid, q, s) && s.Running? && CanStore(g, s.mem, pid, s.part, data, len)
    ensures var r := StoreElement(g, s.mem, pid, s.part, it, data, len);
            Keeps(g, pid, q, s, false, Running(Apply(s.mem, r.writes), r.part))
  {
    var r := StoreElement(g, s.mem, pid, s.part, it, data, len);
    hide Blank, Placed, Orderly, FindFirst, StoreElement, Apply, SameRequest, CanStore, Keeps;
    StoreKeepsOrder(g, s.mem, pid, s.part, it, data, len);
    RunningKeeps(g, pid, q, s, false, Apply(s.mem, r.writes), r.part);
  }

  lemma StoreCutStep(g: Geometry, pid: u16, q: Partition, s: Phase, it: Iterator, data: seq<byte>, len: u16, left: seq<byte>)
    requires Inv(g, pid, q, s) && s.Running? && CanStore(g, s.mem, pid, s.part, data, len)
    requires Cut(s.mem, StoreElement(g, s.mem, pid, s.part, it, data, len).writes, left, pid, q)
    ensures Keeps(g, pid, q, s, false, Off(left))
  {
    hide Blank, Placed, Orderly, FindFirst, StoreElement, Apply, SameRequest, CanStore, Keeps, Cut;
    CutStore(g, s.mem, pid, s.part, it, data, len, left, q);
    SamePlace(s.mem, left, pid, q);
    OffKeeps(g, pid, q, s, false, left);
  }

  lemma ClearStep(g: Geometry, pid: u16, q: Partition, s: Phase, it: Iterator)
    requires Inv(g, pid, q, s) && s.Running? && Registered(s.mem, pid, s.part)
    ensures var r := ClearPartition(g, s.mem, pid, s.part, it);
            Keeps(g, pid, q, s, true, Running(Apply(s.mem, r.writes), r.part))
  {
    hide Blank, Placed, Orderly, FindFirst, ClearPartition, Apply, SameRequest, Keeps, Registered;
    var r := ClearPartition(g, s.mem, pid, s.part, it);
    ClearKeepsOrder(g, s.mem, pid, s.part, it);
    RunningKeeps(g, pid, q, s, true, Apply(s.mem, r.writes), r.part);
  }

  lemma ClearCutStep(g: Geometry, pid: u16, q: Partition, s: Phase, it: Iterator, left: seq<byte>)
    requires Inv(g, pid, q, s) && s.Running? && Registered(s.mem, pid, s.part)
    requires Cut(s.mem, ClearPartition(g, s.mem, pid, s.part, it).writes, left, pid, q)
    ensures Keeps(g, pid, q, s, true, Off(left))
  {
    hide Blank, Placed, Orderly, FindFirst, ClearPartition, Apply, SameRequest, Keeps, Cut, Registered;
    CutClear(g, s.mem, pid, s.part, it, left, q);
    SamePlace(s.mem, left, pid, q);
    OffKeeps(g, pid, q, s, true, left);
  }

  lemma PowerUpStep(g: Geometry, pid: u16, q: Partition, s: Phase)
    requires Inv(g, pid, q, s) && s.Off? && Scan(s.mem, pid, q).ret == Success
    ensures var r := Scan(s.mem, pid, q);
            Keeps(g, pid, q, s, false, Running(Apply(s.mem, r.writes), r.part))
  {
    hide Blank, Placed, Orderly, FindFirst, Scan, Apply;
    var r := Scan(s.mem, pid, q);
    Boot(s.mem, pid, q);
    BlankStays(s.mem, Apply(s.mem, r.writes), pid, q);
  }

  lemma PowerUpCutStep(g: Geometry, pid: u16, q: Partition, s: Phase, left: seq<byte>)
    requires Inv(g, pid, q, s) && s.Off? && Cut(s.mem, Scan(s.mem, pid, q).writes, left, pid, q)
    ensures Keeps(g, pid, q, s, false, Off(left)) && Finds(pid, q, Off(left)) == Finds(pid, q, s)
  {
    hide Blank, Placed, Orderly, FindFirst, Scan, Apply, ReadFirst, Cut;
    Boot(s.mem, pid, q);
    CutRestore(s.mem, pid, q, left);
    BlankStays(s.mem, left, pid, q);
  }

  lemma InvRegistered(g: Geometry, pid: u16, q: Partition, s: Phase)
    requires Inv(g, pid, q, s) && s.Running?
    ensures Registered(s.mem, pid, s.part)
  {
  }

  lemma StepKeeps(g: Geometry, pid: u16, q: Partition, s: Phase, ev: Event, t: Phase)
    requires Inv(g, pid, q, s) && Step(g, pid, q, s, ev, t)
    ensures Keeps(g, pid, q, s, Clears(ev), t)
  {
    hide Inv, Keeps, StoreElement, ClearPartition, Scan, Cut, Apply, CanStore, Registered;
    match ev {
      case Store(it, data, len) => StoreStep(g, pid, q, s, it, data, len);
      case StoreCut(it, data, len, left) => StoreCutStep(g, pid, q, s, it, data, len, left);
      case Clear(it) => InvRegistered(g, pid, q, s); ClearStep(g, pid, q, s, it);
      case ClearCut(it, left) => InvRegistered(g, pid, q, s); ClearCutStep(g, pid, q, s, it, left);
      case PowerUp => PowerUpStep(g, pid, q, s);
      case PowerUpCut(left) => PowerUpCutStep(g, pid, q, s, left);
    }
  }

  /** The events lead from `s` to `t`. */
  ghost predicate Traces(g: Geometry, pid: u16, q: Partition, s: Phase, events: seq<Event>, path: seq<Phase>, t: Phase)
    decreases |events|
  {
    hide *;
    if events == [] then path == [] && t == s
    else path != [] && Step(g, pid, q, s, events[0], path[0]) && Traces(g, pid, q, path[0], events[1..], path[1..], t)
  }

  /**
   * Over any run of stores, clears, restarts and power cuts anywhere in them, a partition at work is in order; and if
   * a first header was there and no clear was begun since, the next registration finds one.
   */
  lemma {:induction false} RunsKeepFirst(g: Geometry, pid: u16, q: Partition, s: Phase, events: seq<Event>, path: seq<Phase>,
                                         t: Phase)
    requires Inv(g, pid, q, s) && Traces(g, pid, q, s, events, path, t)
    ensures Inv(g, pid, q, t)
    ensures Finds(pid, q, s).Found? && (forall ev <- events :: !Clears(ev)) ==> Finds(pid, q, t).Found?
    ensures t.Running? ==> (Finds(pid, q, t).Found? <==> t.part.hasFirstElement)
    decreases |events|
  {
    hide Step, Finds;
    if events != [] {
      StepKeeps(g, pid, q, s, events[0], path[0]);
      RunsKeepFirst(g, pid, q, path[0], events[1..], path[1..], t);
      assert events[0] in events;
    } else if t.Running? {
      InvFinds(g, pid, q, t);
    }
  }

  lemma InvFinds(g: Geometry, pid: u16, q: Partition, t: Phase)
    requires Inv(g, pid, q, t) && t.Running?
    ensures Finds(pid, q, t).Found? <==> t.part.hasFirstElement
  {
    hide Orderly, SameRequest, FindFirst;
    OrderlyFind(t.mem, pid, t.part, q);
  }

  // ---- the elements before the one whose store was cut ----

  lemma {:induction false} CutWithin(mem: seq<byte>, ws: seq<WriteOp>, mem': seq<byte>, pid: u16, p: Partition,
                                     lo: nat, hi: nat, lo2: nat, hi2: nat)
    requires Placed(mem, pid, p) && AllFit(|mem|, ws) && Within(ws, lo, hi, lo2, hi2) && Cut(mem, ws, mem', pid, p)
    ensures ChangedOnly(mem, mem', lo, hi, lo2, hi2)
    decreases |ws|
  {
    hide TornCopy, HeaderLen;
    if ws != [] && mem' != mem && !Torn(mem, ws[0], mem', pid, p) {
      CutWithin(Write(mem, ws[0].address, ws[0].data), ws[1..], mem', pid, p, lo, hi, lo2, hi2);
    }
  }

  lemma CommitWithin(g: Geometry, mem: seq<byte>, pid: u16, p: Partition, it: Iterator, place: Place, e: Elem)
    requires Committing(g, mem, pid, p, place, e)
    ensures Within(Commit(g, mem, pid, p, it, place, e).writes, e.address, Reach(mem, pid, p, e), SwapAddress(pid), SwapEnd(pid))
    ensures p.firstElementAddress <= e.address && End(pid, p.firstElementAddress, e) <= PartEnd(p)
  {
    ClearWithin(mem, pid, p, e);
    var clear, bytes := ClearOf(mem, pid, p, e), HeadBytes(pid, p, place, e.data);
    var swap, reach := SwapAddress(pid), Reach(mem, pid, p, e);
    hide NoNext, HeadBytes, CommitElement, ClearOf, Reach, StoreWrites, Apply, Holds, SwapAddress, HeaderLen;
    var backup := CommitIsWrites(g, mem, pid, p, it, place, e);
    assert Within(backup, e.address, reach, swap, SwapEnd(pid));
    StoreWithin(clear, backup, e.address, bytes, e.data, reach, swap, SwapEnd(pid));
  }

  /** A store behind the latest element, wherever it is cut, leaves all elements of the lap as they were. */
  lemma CutKeepsElements(g: Geometry, mem: seq<byte>, pid: u16, p: Partition, it: Iterator, place: Place, e: Elem, log: Log,
                         mem': seq<byte>)
    requires Committing(g, mem, pid, p, place, e) && LogInv(mem, pid, p, log)
    requires e.address == End(pid, p.firstElementAddress, Last(log.chain))
    requires Placed(mem, pid, p) && Cut(mem, Commit(g, mem, pid, p, it, place, e).writes, mem', pid, p)
    ensures |mem'| == |mem| && LiesFirst(mem', pid, p, log.chain[0])
    ensures AllLie(mem', pid, p.firstElementAddress, log.chain[1..])
  {
    hide Commit, Committing, LiesFirst, AllLie, EndsLap, OlderInv, Linked, Placed, Cut, Apply, Reach, End;
    CommitWithin(g, mem, pid, p, it, place, e);
    CutWithin(mem, Commit(g, mem, pid, p, it, place, e).writes, mem', pid, p, e.address, Reach(mem, pid, p, e),
              SwapAddress(pid), SwapEnd(pid));
    ChainStillLies(mem, mem', pid, p, log.chain, e.address, Reach(mem, pid, p, e));
  }
}
