/** A multiple of 65534 slots: the identifiers come round with the slots, and a store erases the element behind its own. */
module FsComesRound {
  import opened Bytes
  import opened Words
  import opened Crc16
  import opened Units
  import opened FsTypes
  import opened FsSpec
  import opened FsLog
  import opened FsStore
  import opened FsKeep
  import opened FsWalk
  import opened FsRing
  import opened FsRingWalk
  import opened FsIterator
  import opened FsHistory
  import opened FsStanding
  import opened FsSucceeds

  /** Behind an element that ends its lap no header reads as that of its successor. */
  lemma ErasedIsInvalid(mem: seq<byte>, pid: u16, p: Partition, e: Elem, x: Elem)
    requires NoNext(mem, pid, p, e) && p.hasFirstElement && !IsDynamic(pid) && |x.data| < 0x1_0000 && |e.data| < 0x1_0000
    requires p.firstElementAddress < x.address == End(pid, p.firstElementAddress, e) && x.id == IncrementRecordId(e.id)
    requires |x.data| == p.metadata.firstElementLen && End(pid, p.firstElementAddress, x) <= PartEnd(p) <= |mem|
    ensures CheckValidity(mem, pid, p, At(pid, x)).ret == InvalidState
  {
    hide DeserializeHeader, HeaderLen, IncrementRecordId, ReadFirst, Checksum;
  }

  /** The iterator on the element behind does not stop the store. */
  lemma StoreGoesThrough(g: Geometry, mem: seq<byte>, pid: u16, p: Partition, data: seq<byte>, len: u16, log: Log, x: Elem)
    requires CanStore(g, mem, pid, p, data, len) && LogInv(mem, pid, p, log) && LegalLen(pid, p, len)
    requires x in All(log) && |x.data| < 0x1_0000 && x.address == End(pid, p.firstElementAddress, StoredElem(pid, p, data, len))
    requires HasRoom(mem, pid, p, StoredElem(pid, p, data, len))
    ensures StoreElement(g, mem, pid, p, At(pid, x), data, len).ret == Success
  {
    var e := StoredElem(pid, p, data, len);
    hide *;
    StandsOnElement(pid, At(pid, x), log, x);
    LogIsPart(mem, pid, p, log);
    StoreSucceedsIff(g, mem, pid, p, At(pid, x), data, len, log);
  }

  /** If nothing may follow `e` and `x` lies there with the next identifier, its bytes are not what they were. */
  lemma ErasedIsHarmed(mem: seq<byte>, mem': seq<byte>, pid: u16, p: Partition, q: Partition, e: Elem, x: Elem)
    requires NoNext(mem', pid, q, e) && Lies(mem, pid, p.firstElementAddress, x) && !IsDynamic(pid) && |e.data| < 0x1_0000
    requires q.firstElementAddress == p.firstElementAddress && |x.data| == q.metadata.firstElementLen
    requires x.address == End(pid, p.firstElementAddress, e) && x.id == IncrementRecordId(e.id)
    requires End(pid, p.firstElementAddress, x) <= PartEnd(q) <= |mem'|
    ensures !Agree(mem, mem', x.address, End(pid, p.firstElementAddress, x))
  {
    hide NoNext, Lies, IncrementRecordId, End, PartEnd, Agree;
    if Agree(mem, mem', x.address, End(pid, p.firstElementAddress, x)) {
      LiesFrame(mem, mem', pid, p.firstElementAddress, x);
      NoNextOfIntact(mem', pid, q, e, x);
    }
  }

  /** A store that succeeds, but takes the element under the iterator for the one after its own: it is lost. */
  lemma TakenIsLost(g: Geometry, mem: seq<byte>, pid: u16, p: Partition, data: seq<byte>, len: u16, log: Log, i: nat)
    requires CanStore(g, mem, pid, p, data, len) && LogInv(mem, pid, p, log) && !IsDynamic(pid)
    requires TakenForNext(pid, p, log, StoredElem(pid, p, data, len), i) && |All(log)[i].data| < 0x1_0000
    requires StoreElement(g, mem, pid, p, At(pid, All(log)[i]), data, len).ret == Success
    ensures var x := All(log)[i];
            var r := StoreElement(g, mem, pid, p, At(pid, x), data, len);
      && r.iter == At(pid, x) && CheckValidity(Apply(mem, r.writes), pid, r.part, r.iter).ret == InvalidState
      && !Agree(mem, Apply(mem, r.writes), x.address, End(pid, p.firstElementAddress, x))
  {
    var x, e := All(log)[i], StoredElem(pid, p, data, len);
    var r := StoreElement(g, mem, pid, p, At(pid, x), data, len);
    var mem' := Apply(mem, r.writes);
    var log' := AfterStore(pid, p.firstElementAddress, log, e, Reach(mem, pid, p, e));
    IntactInLog(mem, pid, p, log, i);
    assert x in All(log) && x.address == End(pid, p.firstElementAddress, e) && p.firstElementAddress < x.address;
    hide *;
    FlagStays(g, mem, pid, p, data, len, log, x);
    LogIsPart(mem, pid, p, log);
    StoreKeeps(g, mem, pid, p, At(pid, x), data, len, log);
    ChainNotEmpty(pid, p.firstElementAddress, log, e, Reach(mem, pid, p, e));
    PartIsLog(mem', pid, r.part, log');
    LatestEnds(mem', pid, r.part, log');
    StoreRecord(g, mem, pid, p, At(pid, x), data, len, log);
    NextIdIs(g, mem, pid, p, data, len, log, i);
    ErasedIsInvalid(mem', pid, r.part, e, x);
    ErasedIsHarmed(mem, mem', pid, p, r.part, e, x);
  }

  /**
   * Static partitions: a store that succeeds leaves the element under the iterator in the log, byte for byte, and the
   * iterator reads on as before, if and only if the identifiers do not come round to that element.
   */
  lemma StoreSparesIff(g: Geometry, mem: seq<byte>, pid: u16, p: Partition, data: seq<byte>, len: u16, log: Log, n: nat, i: nat)
    requires CanStore(g, mem, pid, p, data, len) && LogInv(mem, pid, p, log) && RingInv(pid, p, log, n)
    requires i < |All(log)| && |All(log)[i].data| < 0x1_0000
    requires StoreElement(g, mem, pid, p, At(pid, All(log)[i]), data, len).ret == Success
    ensures var x := All(log)[i];
            var e := StoredElem(pid, p, data, len);
            var r := StoreElement(g, mem, pid, p, At(pid, x), data, len);
            var log' := AfterStore(pid, p.firstElementAddress, log, e, Reach(mem, pid, p, e));
            var spared := !(Slots(pid, p) % RECORD_IDS == 0 && DirectlyBehind(pid, p, log, e, i));
      && (Unharmed(mem, Apply(mem, r.writes), pid, p, log', x) <==> spared)
      && (spared <==> IteratorRead(Apply(mem, r.writes), pid, r.part, r.iter)
                      == ElementRead(Outcome(Success, r.part, At(pid, x), []), x.data, x.id))
  {
    var e := StoredElem(pid, p, data, len);
    RingIsStatic(pid, p, log, n);
    hide LogInv, CanStore, RingInv, StoreElement, IteratorRead, CheckValidity, Apply, StoredElem, AfterStore, Slots, DirectlyBehind, At,
      Agree, Reach, End, All;
    FlagStays(g, mem, pid, p, data, len, log, All(log)[i]);
    if TakenForNext(pid, p, log, e, i) {
      TakenIsLost(g, mem, pid, p, data, len, log, i);
      var r := StoreElement(g, mem, pid, p, At(pid, All(log)[i]), data, len);
      InvalidReadsNothing(Apply(mem, r.writes), pid, r.part, r.iter);
    } else {
      StoreSparesIterator(g, mem, pid, p, data, len, log, n, i);
      IteratorStays(g, mem, pid, p, data, len, log, n, i);
    }
  }

  lemma RingIsStatic(pid: u16, p: Partition, log: Log, n: nat)
    requires RingInv(pid, p, log, n)
    ensures !IsDynamic(pid)
  {
  }

  lemma InvalidReadsNothing(mem: seq<byte>, pid: u16, p: Partition, it: Iterator)
    requires CheckValidity(mem, pid, p, it).ret == InvalidState
    ensures IteratorRead(mem, pid, p, it).outcome.ret == InvalidState
  {
    hide CheckValidity;
  }

  /** Where the identifiers come round with the slots, a store succeeds under an iterator, and the iterator is lost. */
  lemma StoreErasesUnderIterator(g: Geometry, mem: seq<byte>, pid: u16, p: Partition, data: seq<byte>, len: u16, log: Log, i: nat)
    requires CanStore(g, mem, pid, p, data, len) && LogInv(mem, pid, p, log) && LegalLen(pid, p, len) && !IsDynamic(pid)
    requires Slots(pid, p) % RECORD_IDS == 0 && DirectlyBehind(pid, p, log, StoredElem(pid, p, data, len), i)
    requires |All(log)[i].data| < 0x1_0000 && HasRoom(mem, pid, p, StoredElem(pid, p, data, len))
    ensures var x := All(log)[i];
            var r := StoreElement(g, mem, pid, p, At(pid, x), data, len);
      && CheckValidity(mem, pid, p, At(pid, x)).ret == Success
      && r.ret == Success && r.iter == At(pid, x)
      && CheckValidity(Apply(mem, r.writes), pid, r.part, r.iter).ret == InvalidState
  {
    var x, e := All(log)[i], StoredElem(pid, p, data, len);
    assert x in All(log) && x.address == End(pid, p.firstElementAddress, e);
    assert TakenForNext(pid, p, log, e, i);
    hide *;
    StoreGoesThrough(g, mem, pid, p, data, len, log, x);
    AllReadback(mem, pid, p, log, x);
    ChainOfLog(mem, pid, p, log);
    ValidAt(mem, pid, p, x);
    TakenIsLost(g, mem, pid, p, data, len, log, i);
  }

  lemma NextIdIs(g: Geometry, mem: seq<byte>, pid: u16, p: Partition, data: seq<byte>, len: u16, log: Log, i: nat)
    requires CanStore(g, mem, pid, p, data, len) && LogInv(mem, pid, p, log)
    requires Slots(pid, p) % RECORD_IDS == 0 && DirectlyBehind(pid, p, log, StoredElem(pid, p, data, len), i)
    ensures All(log)[i].id == IncrementRecordId(StoredElem(pid, p, data, len).id)
  {
    LogConsecutive(mem, pid, p, log);
    ChainOfLog(mem, pid, p, log);
    LogIsPart(mem, pid, p, log);
    assert Last(All(log)) == Last(log.chain);
    hide LogInv, IncrementRecordId, Slots, StoredElem, Consecutive, WellFormed, PartInv, Registered, ByteUnits, TotalSize, Reach;
    StoredElemContinues(mem, pid, p, data, len, log);
    IdsComeRound(All(log), StoredElem(pid, p, data, len), i, Slots(pid, p));
  }

  /** Such an element exists: after a full first lap, the one in slot 1. */
  lemma SecondSlotIsNext(mem: seq<byte>, pid: u16, p: Partition, log: Log, hist: seq<seq<byte>>, data: seq<byte>, len: u16)
    requires PartHolds(mem, pid, p, log, hist) && !IsDynamic(pid) && EffectiveLen(pid, p, len) == p.metadata.firstElementLen <= |data|
    requires |hist| == Slots(pid, p) > 1
    ensures LogInv(mem, pid, p, log) && DirectlyBehind(pid, p, log, StoredElem(pid, p, data, len), 1)
  {
    var slots := Slots(pid, p);
    HoldsLog(mem, pid, p, log, hist);
    hide PartInv, LogInv, SlotAddress, Slots, StoredElem, Position, HoldsLap, End;
    PositionAdvances(slots, slots);
    RingElem(mem, pid, p, log, slots, data, len);
    SlotZero(pid, p);
    SlotsGrow(pid, p, 0, 1);
    hide HistoryInv;
    assert All(log) == log.chain && log.chain[1].address == SlotAddress(pid, p, 1);
    SlotFollows(pid, p, StoredElem(pid, p, data, len), 0);
  }
}
