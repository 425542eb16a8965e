/** One operation on one partition: what it keeps and what it changes. */
module FsPerform {
  import opened Bytes
  import opened Crc16
  import opened Units
  import opened FsTypes
  import opened FsSpec
  import opened FsLog
  import opened FsStore
  import opened FsKeep
  import opened FsClear
  import opened FsWalk
  import opened FsRing
  import opened FsRingWalk
  import opened FsIterator
  import opened FsHistory
  import opened FsStanding

  datatype Command = Store(data: seq<byte>, len: u16) | Clear | Init | Next | Previous | Read | Invalidate

  /** What a caller must see to: a payload of the length announced. */
  predicate Serves(pid: u16, p: Partition, c: Command) {
    c.Store? ==> EffectiveLen(pid, p, c.len) <= |c.data|
  }

  function Perform(g: Geometry, mem: seq<byte>, pid: u16, p: Partition, it: Iterator, c: Command): (r: Outcome)
    requires Regular(g) && TotalSize(g) == |mem| && Registered(mem, pid, p) && Serves(pid, p, c)
    ensures AllFit(|mem|, r.writes)
  {
    match c
    case Store(data, len) => StoreElement(g, mem, pid, p, it, data, len)
    case Clear => ClearPartition(g, mem, pid, p, it)
    case Init => IteratorInit(mem, pid, p, it)
    case Next => IteratorNext(mem, pid, p, it)
    case Previous => IteratorPrevious(mem, pid, p, it)
    case Read => IteratorRead(mem, pid, p, it).outcome
    case Invalidate => Outcome(Success, p, it.(valid := false), [])
  }

  /** A payload of the length announced; to a partition of one length, 0 announces that one. */
  function Payload(pid: u16, p: Partition, data: seq<byte>, len: u16): seq<byte>
    requires Serves(pid, p, Store(data, len))
  {
    if len > 0 || IsDynamic(pid) then data[..len] else data[..p.metadata.firstElementLen]
  }

  /** The payloads a partition has been given since it was last cleared. */
  function Remember(pid: u16, p: Partition, c: Command, ret: Ret, hist: seq<seq<byte>>): seq<seq<byte>>
    requires Serves(pid, p, c)
  {
    if ret != Success then hist
    else match c
      case Store(data, len) => hist + [Payload(pid, p, data, len)]
      case Clear => []
      case _ => hist
  }

  /** The iterator's operations neither write nor change the record. */
  lemma IteratingIsQuiet(mem: seq<byte>, pid: u16, p: Partition, it: Iterator)
    requires Stable(mem, pid, p)
    ensures var r := IteratorInit(mem, pid, p, it); r.writes == [] && r.part == p
    ensures var r := IteratorNext(mem, pid, p, it); r.writes == [] && r.part == p
    ensures var r := IteratorPrevious(mem, pid, p, it); r.writes == [] && r.part == p
    ensures var r := IteratorRead(mem, pid, p, it).outcome; r.writes == [] && r.part == p
  {
    hide Stable, NextHeader, PreviousHeader, CheckValidity, ReadHeader, HeaderLen, SameButMetadata;
    ValidityIsQuiet(mem, pid, p, it);
    StableReads(mem, pid, p, p.latestElementAddress);
    StableNext(mem, pid, p, it.currentAddress, it.currentHeader.recordId, it.currentLen);
    StablePrevious(mem, pid, p, it.currentAddress, it.currentHeader.recordId, it.currentLen);
    ApplyNothing(mem);
    hide Apply, AllFit;
  }

  lemma ValidityIsQuiet(mem: seq<byte>, pid: u16, p: Partition, it: Iterator)
    requires Stable(mem, pid, p)
    ensures var r := CheckValidity(mem, pid, p, it); r.writes == [] && r.part == p
  {
    StableReads(mem, pid, p, it.currentAddress);
    hide ReadHeader, Stable;
  }

  /** Nothing but a partition's own bytes and its own copy in the swap page has changed. */
  ghost predicate ChangedOwn(mem: seq<byte>, mem': seq<byte>, pid: u16, p: Partition) {
    ChangedOnly(mem, mem', p.firstElementAddress, PartEnd(p), SwapAddress(pid), SwapEnd(pid))
  }

  lemma StoreChangesOwn(g: Geometry, mem: seq<byte>, pid: u16, p: Partition, it: Iterator, data: seq<byte>, len: u16, log: Log)
    requires CanStore(g, mem, pid, p, data, len) && PartInv(mem, pid, p, log)
    ensures ChangedOwn(mem, Apply(mem, StoreElement(g, mem, pid, p, it, data, len).writes), pid, p)
  {
    var r := StoreElement(g, mem, pid, p, it, data, len);
    var e := StoredElem(pid, p, data, len);
    PartIsStable(mem, pid, p, log);
    StoredElemContinues(mem, pid, p, data, len, log);
    StoreUnfolds(g, mem, pid, p, it, data, len);
    hide StoreElement, Stable, Placement, CommitElement, ClearOf, CanStore, PartInv, HeaderLen, NoNext, Readable, Apply;
    if r.ret == Success {
      StoreChanges(g, mem, pid, p, it, data, len, log);
      hide Reach, End, SwapAddress, PartEnd;
    } else {
      FailureKeeps(g, mem, pid, p, it, data, len, log);
      ApplyNothing(mem);
    }
  }

  lemma ClearChangesOwn(g: Geometry, mem: seq<byte>, pid: u16, p: Partition, it: Iterator, log: Log)
    requires ByteUnits(g) && TotalSize(g) == |mem| && PartInv(mem, pid, p, log) && Registered(mem, pid, p)
    ensures ChangedOwn(mem, Apply(mem, ClearPartition(g, mem, pid, p, it).writes), pid, p)
  {
    var ws := ClearPartition(g, mem, pid, p, it).writes;
    hide *;
    RoomForCopies(mem, pid, p);
    var backup := ClearWrites(g, mem, pid, p, it, log);
    ErasureInside(mem, pid, p, backup);
    ApplyWithin(mem, ws, p.firstElementAddress, PartEnd(p), SwapAddress(pid), SwapEnd(pid));
    OwnIsChanged(mem, Apply(mem, ws), pid, p);
  }

  lemma OwnIsChanged(mem: seq<byte>, mem': seq<byte>, pid: u16, p: Partition)
    requires ChangedOnly(mem, mem', p.firstElementAddress, PartEnd(p), SwapAddress(pid), SwapEnd(pid))
    ensures ChangedOwn(mem, mem', pid, p)
  {
  }

  lemma ErasureInside(mem: seq<byte>, pid: u16, p: Partition, backup: seq<WriteOp>)
    requires Registered(mem, pid, p) && (backup == [] || backup == [WriteOp(SwapAddress(pid), ErasedBlob(pid))])
    ensures Within(backup + [WriteOp(p.firstElementAddress, ErasedBlob(pid))],
                   p.firstElementAddress, PartEnd(p), SwapAddress(pid), SwapEnd(pid))
  {
    hide HeaderLen, ErasedBlob, SwapAddress;
  }

  /** The shape of a record that no operation changes. */
  lemma PerformKeepsShape(g: Geometry, mem: seq<byte>, pid: u16, p: Partition, it: Iterator, data: seq<byte>, len: u16, log: Log)
    requires CanStore(g, mem, pid, p, data, len) && PartInv(mem, pid, p, log)
    ensures SameShape(pid, p, StoreElement(g, mem, pid, p, it, data, len).part)
  {
    var r := StoreElement(g, mem, pid, p, it, data, len);
    hide StoreElement, PartInv, CanStore;
    if r.ret == Success {
      StoreRecord(g, mem, pid, p, it, data, len, log);
    } else {
      FailureKeeps(g, mem, pid, p, it, data, len, log);
    }
  }

  /** What an operation with result `r` does to a partition and its log. */
  ghost predicate Done(mem: seq<byte>, pid: u16, p: Partition, it: Iterator, log: Log, r: Outcome, log': Log,
                       hist': seq<seq<byte>>)
    requires AllFit(|mem|, r.writes)
  {
    && PartHolds(Apply(mem, r.writes), pid, r.part, log', hist')
    && ChangedOwn(mem, Apply(mem, r.writes), pid, p) && SameShape(pid, p, r.part)
    && (Standing(pid, p, it, log) ==> Standing(pid, r.part, r.iter, log'))
  }

  /** A store leaves the element under the iterator where it is. */
  ghost predicate Spared(pid: u16, p: Partition, it: Iterator, log: Log, r: Outcome, log': Log) {
    Steady(pid, p) && p.hasFirstElement ==>
      forall x :: x in All(log) && StandsOn(pid, it, x) ==> x in All(log') && r.iter == it
  }

  lemma SteadyAlike(pid: u16, p: Partition, q: Partition)
    requires SameShape(pid, p, q)
    ensures Steady(pid, q) <==> Steady(pid, p)
  {
    if !IsDynamic(pid) {
      SlotsOfShape(pid, p, q);
    }
    hide Slots, SameShape;
  }

  // ---- stores ----

  lemma StoreSpares(g: Geometry, mem: seq<byte>, pid: u16, p: Partition, it: Iterator, data: seq<byte>, len: u16, log: Log,
                    hist: seq<seq<byte>>, log': Log)
    requires CanStore(g, mem, pid, p, data, len) && PartHolds(mem, pid, p, log, hist)
    requires var r := StoreElement(g, mem, pid, p, it, data, len);
             log' == if r.ret == Success
                     then AfterStore(pid, p.firstElementAddress, log, StoredElem(pid, p, data, len),
                                     Reach(mem, pid, p, StoredElem(pid, p, data, len)))
                     else log
    ensures Spared(pid, p, it, log, StoreElement(g, mem, pid, p, it, data, len), log')
  {
    var r := StoreElement(g, mem, pid, p, it, data, len);
    hide StoreElement, CanStore, PartInv, HistoryInv, AfterStore, Reach, StoredElem, Slots, At;
    if Steady(pid, p) && p.hasFirstElement {
      HoldsRing(mem, pid, p, log, hist);
      forall x | x in All(log) && StandsOn(pid, it, x) ensures x in All(log') && r.iter == it {
        FlagStays(g, mem, pid, p, data, len, log, x);
        if r.ret == Success {
          ElementStays(g, mem, pid, p, data, len, log, |hist|, x);
        }
      }
    }
  }

  lemma HoldsRing(mem: seq<byte>, pid: u16, p: Partition, log: Log, hist: seq<seq<byte>>)
    requires PartHolds(mem, pid, p, log, hist) && p.hasFirstElement
    ensures LogInv(mem, pid, p, log) && (!IsDynamic(pid) ==> RingInv(pid, p, log, |hist|))
  {
    PartIsStable(mem, pid, p, log);
    hide LogInv, EmptyInv, RingInv, HoldsLap, EndsWith, Slots, Stable, Registered;
  }

  lemma StoreStands(g: Geometry, mem: seq<byte>, pid: u16, p: Partition, it: Iterator, data: seq<byte>, len: u16, log: Log,
                    log': Log)
    requires CanStore(g, mem, pid, p, data, len) && Standing(pid, p, it, log)
    requires var r := StoreElement(g, mem, pid, p, it, data, len);
             Spared(pid, p, it, log, r, log') && SameShape(pid, p, r.part) && (r.ret != Success ==> r.part == p)
    ensures var r := StoreElement(g, mem, pid, p, it, data, len); Standing(pid, r.part, r.iter, log')
  {
    var r := StoreElement(g, mem, pid, p, it, data, len);
    SteadyAlike(pid, p, r.part);
    StoreChecks(g, mem, pid, p, it, data, len);
    ConflictKeepsPosition(g, mem, pid, p, it, StoredElem(pid, p, data, len).address, EffectiveLen(pid, p, len));
    hide StoreElement, CanStore, Steady, StoredElem, CheckConflict, SameShape, All, StandsOn;
    if Steady(pid, p) && p.hasFirstElement && it.valid {
      var x :| x in All(log) && StandsOn(pid, it, x);
      StandsOnElement(pid, it, log', x);
    }
  }

  lemma PayloadIsStored(pid: u16, p: Partition, data: seq<byte>, len: u16)
    requires EffectiveLen(pid, p, len) <= |data|
    ensures StoredElem(pid, p, data, len).data == Payload(pid, p, data, len)
  {
    hide Placement, HeaderLen;
  }

  lemma StoreKept(g: Geometry, mem: seq<byte>, pid: u16, p: Partition, it: Iterator, data: seq<byte>, len: u16, log: Log,
                  hist: seq<seq<byte>>) returns (log': Log)
    requires CanStore(g, mem, pid, p, data, len) && PartHolds(mem, pid, p, log, hist)
    ensures var r := StoreElement(g, mem, pid, p, it, data, len);
            var hist' := if r.ret == Success then hist + [Payload(pid, p, data, len)] else hist;
      && Done(mem, pid, p, it, log, r, log', hist') && Spared(pid, p, it, log, r, log')
  {
    var r := StoreElement(g, mem, pid, p, it, data, len);
    var e := StoredElem(pid, p, data, len);
    log' := if r.ret == Success then AfterStore(pid, p.firstElementAddress, log, e, Reach(mem, pid, p, e)) else log;
    assert PartInv(mem, pid, p, log);
    ApplyNothing(mem);
    PayloadIsStored(pid, p, data, len);
    hide Payload, EffectiveLen;
    hide PartInv, HistoryInv, StoreElement, CanStore, AfterStore, Reach, StoredElem, Standing, Spared, ChangedOwn, SameShape, Apply;
    StoreAppends(g, mem, pid, p, it, data, len, log, hist);
    StoreChangesOwn(g, mem, pid, p, it, data, len, log);
    PerformKeepsShape(g, mem, pid, p, it, data, len, log);
    StoreSpares(g, mem, pid, p, it, data, len, log, hist, log');
    if Standing(pid, p, it, log) {
      StoreStands(g, mem, pid, p, it, data, len, log, log');
    }
  }

  // ---- clears ----

  lemma ClearKept(g: Geometry, mem: seq<byte>, pid: u16, p: Partition, it: Iterator, log: Log, hist: seq<seq<byte>>)
    requires ByteUnits(g) && TotalSize(g) == |mem| && Registered(mem, pid, p) && PartHolds(mem, pid, p, log, hist)
    ensures var r := ClearPartition(g, mem, pid, p, it); r.ret == Success && Done(mem, pid, p, it, log, r, EMPTY_LOG, [])
  {
    assert PartInv(mem, pid, p, log);
    hide PartInv, HistoryInv, ClearPartition, Registered, TotalSize, ByteUnits, ChangedOwn, Apply, AllFit, ErasedBlob, HeaderLen;
    ClearForgets(g, mem, pid, p, it, log, hist);
    ClearChangesOwn(g, mem, pid, p, it, log);
    var backup := ClearWrites(g, mem, pid, p, it, log);
  }

  // ---- the iterator ----

  /** The iterator's operations, in terms of the iterator they leave. */
  lemma NotValidStays(mem: seq<byte>, pid: u16, p: Partition, it: Iterator)
    requires !it.valid || !p.hasFirstElement
    ensures !IteratorNext(mem, pid, p, it).iter.valid && !IteratorPrevious(mem, pid, p, it).iter.valid
    ensures !IteratorRead(mem, pid, p, it).outcome.iter.valid
  {
    hide ReadHeader, NextHeader, PreviousHeader, Apply, HeaderLen, Checksum;
  }

  lemma ReadStays(mem: seq<byte>, pid: u16, p: Partition, x: Elem)
    requires Readback(mem, pid, p, x) && p.hasFirstElement && |x.data| < 0x1_0000
    ensures IteratorRead(mem, pid, p, At(pid, x)).outcome.iter == At(pid, x)
  {
    ValidAt(mem, pid, p, x);
    hide CheckValidity, Readback, Checksum, Apply, HeaderLen;
  }

  lemma StepsStand(mem: seq<byte>, pid: u16, p: Partition, log: Log, n: nat, x: Elem)
    requires LogInv(mem, pid, p, log) && RingInv(pid, p, log, n) && Steady(pid, p) && x in All(log) && |x.data| < 0x1_0000
    ensures OnElement(pid, IteratorNext(mem, pid, p, At(pid, x)).iter, log)
    ensures OnElement(pid, IteratorPrevious(mem, pid, p, At(pid, x)).iter, log)
    ensures OnElement(pid, IteratorRead(mem, pid, p, At(pid, x)).outcome.iter, log)
  {
    hide LogInv, RingInv, Slots, IteratorNext, IteratorPrevious, IteratorRead, OnElement, At, Readback, StandsOn;
    NextStands(mem, pid, p, log, x);
    PreviousStands(mem, pid, p, log, n, x);
    AllReadback(mem, pid, p, log, x);
    ChainOfLog(mem, pid, p, log);
    ReadStays(mem, pid, p, x);
    StandsOnElement(pid, At(pid, x), log, x);
  }

  lemma IteratorStands(mem: seq<byte>, pid: u16, p: Partition, it: Iterator, log: Log, hist: seq<seq<byte>>)
    requires PartHolds(mem, pid, p, log, hist) && Standing(pid, p, it, log)
    ensures Standing(pid, p, IteratorInit(mem, pid, p, it).iter, log)
    ensures Standing(pid, p, IteratorNext(mem, pid, p, it).iter, log)
    ensures Standing(pid, p, IteratorPrevious(mem, pid, p, it).iter, log)
    ensures Standing(pid, p, IteratorRead(mem, pid, p, it).outcome.iter, log)
  {
    hide PartHolds, IteratorInit, IteratorNext, IteratorPrevious, IteratorRead, OnElement, At, Steady, LogInv, RingInv;
    if Steady(pid, p) && p.hasFirstElement {
      HoldsRing(mem, pid, p, log, hist);
      InitStands(mem, pid, p, it, log);
      if it.valid {
        var x := ElementUnder(pid, it, log);
        SteadyIsStatic(pid, p);
        StepsStand(mem, pid, p, log, |hist|, x);
      } else {
        NotValidStays(mem, pid, p, it);
      }
    }
  }

  lemma SteadyIsStatic(pid: u16, p: Partition)
    requires Steady(pid, p)
    ensures !IsDynamic(pid)
  {
  }

  lemma ElementUnder(pid: u16, it: Iterator, log: Log) returns (x: Elem)
    requires OnElement(pid, it, log)
    ensures x in All(log) && |x.data| < 0x1_0000 && it == At(pid, x)
  {
    x :| x in All(log) && StandsOn(pid, it, x);
  }

  lemma QuietDone(mem: seq<byte>, pid: u16, p: Partition, it: Iterator, log: Log, hist: seq<seq<byte>>, r: Outcome)
    requires r.writes == [] && r.part == p && PartHolds(mem, pid, p, log, hist)
    requires Standing(pid, p, it, log) ==> Standing(pid, p, r.iter, log)
    ensures AllFit(|mem|, r.writes) && Done(mem, pid, p, it, log, r, log, hist)
  {
    ApplyNothing(mem);
    hide PartHolds, Standing, Apply, HeaderLen, SwapAddress;
  }

  lemma IteratorKept(g: Geometry, mem: seq<byte>, pid: u16, p: Partition, it: Iterator, c: Command, log: Log, hist: seq<seq<byte>>)
    requires Regular(g) && TotalSize(g) == |mem| && Registered(mem, pid, p) && PartHolds(mem, pid, p, log, hist)
    requires !c.Store? && !c.Clear?
    ensures Done(mem, pid, p, it, log, Perform(g, mem, pid, p, it, c), log, hist)
  {
    var r := Perform(g, mem, pid, p, it, c);
    assert PartInv(mem, pid, p, log);
    hide PartHolds, PartInv, IteratorInit, IteratorNext, IteratorPrevious, IteratorRead, Stable, Standing, Done, Registered, TotalSize,
      SameButMetadata, AllFit;
    PartIsStable(mem, pid, p, log);
    IteratingIsQuiet(mem, pid, p, it);
    if Standing(pid, p, it, log) {
      IteratorStands(mem, pid, p, it, log, hist);
    }
    QuietDone(mem, pid, p, it, log, hist, r);
  }

  /** Every operation keeps what the partition holds, or changes it as the operation should, and leaves the rest alone. */
  lemma PerformKeeps(g: Geometry, mem: seq<byte>, pid: u16, p: Partition, it: Iterator, c: Command, log: Log, hist: seq<seq<byte>>)
    returns (log': Log)
    requires ByteUnits(g) && TotalSize(g) == |mem| && Registered(mem, pid, p) && Serves(pid, p, c)
    requires PartHolds(mem, pid, p, log, hist)
    ensures var r := Perform(g, mem, pid, p, it, c);
      && Done(mem, pid, p, it, log, r, log', Remember(pid, p, c, r.ret, hist))
      && (c.Store? ==> Spared(pid, p, it, log, r, log'))
  {
    hide PartHolds, StoreElement, ClearPartition, IteratorInit, IteratorNext, IteratorPrevious, IteratorRead, Registered,
      TotalSize, Done, Spared;
    if c.Store? {
      log' := StoreKept(g, mem, pid, p, it, c.data, c.len, log, hist);
    } else if c.Clear? {
      log' := EMPTY_LOG;
      ClearKept(g, mem, pid, p, it, log, hist);
    } else {
      log' := log;
      IteratorKept(g, mem, pid, p, it, c, log, hist);
    }
  }
}
