/** The iterator and stores: a store is refused exactly if it would touch the iterator's element. */
module FsIterator {
  import opened Bytes
  import opened Words
  import opened Crc16
  import opened Units
  import opened FsTypes
  import opened FsSpec
  import opened FsLog
  import opened FsStore
  import opened FsKeep
  import opened FsWalk
  import opened FsRing
  import opened FsRingWalk

  // ---- the conflict test ----

  predicate In(x: int, lo: int, hi: int) { lo <= x < hi }

  /** The three cases together say that two non-empty ranges have an address in common. */
  lemma ConflictIsIntersection(a: nat, b: nat, c: nat, d: nat)
    requires a < b && c < d
    ensures ConflictTest(a, b, c, d) <==> exists x :: In(x, a, b) && In(x, c, d)
  {
    if ConflictTest(a, b, c, d) {
      var x := if a < c then c else a;
      assert In(x, a, b) && In(x, c, d);
    }
  }

  /**
   * A store is refused because of a valid iterator exactly if the bytes of the new element and those of the iterator's
   * element, counted from the start of the unit it begins in, have an address in common.
   */
  lemma ForbiddenIffTouching(g: Geometry, mem: seq<byte>, pid: u16, p: Partition, it: Iterator, address: nat, len: u16)
    requires Regular(g) && CheckValidity(mem, pid, p, it).ret == Success
    requires EndOf(pid, p.firstElementAddress, it.currentAddress, it.currentLen) <= TotalSize(g)
    requires it.currentAddress < TotalSize(g)
    ensures CheckConflict(g, mem, pid, p, it, address, len).ret in {Success, Forbidden}
    ensures CheckConflict(g, mem, pid, p, it, address, len).ret == Forbidden <==>
              exists x :: In(x, address, EndOf(pid, p.firstElementAddress, address, len))
                          && In(x, UnitStart(g, it.currentAddress),
                                EndOf(pid, p.firstElementAddress, it.currentAddress, it.currentLen))
  {
    var start, current := p.firstElementAddress, it.currentAddress;
    var size := it.currentLen + FullHeaderLen(pid, start, current);
    UnitsHold(g, current, size);
    assert CheckValidity(mem, pid, p, it).iter.currentAddress == current;
    assert CheckValidity(mem, pid, p, it).iter.currentLen == it.currentLen;
    ConflictIsIntersection(address, EndOf(pid, start, address, len), UnitStart(g, current), current + size);
    hide CheckValidity, In, ConflictTest, HeaderLen, SameButMetadata;
  }

  // ---- safety ----

  lemma StorePassesCheck(g: Geometry, mem: seq<byte>, pid: u16, p: Partition, it: Iterator, data: seq<byte>, len: u16)
    requires CanStore(g, mem, pid, p, data, len)
    requires StoreElement(g, mem, pid, p, it, data, len).ret == Success
    ensures CheckConflict(g, mem, pid, p, it, StoredElem(pid, p, data, len).address, EffectiveLen(pid, p, len)).ret == Success
  {
    hide CheckConflict, HeaderLen, Placement, NextHeader, Registered, TotalSize, Apply, CommitElement, SameButMetadata, AllFit;
  }

  /** A store to where the iterator's element begins is refused. */
  lemma ConflictAtElem(g: Geometry, mem: seq<byte>, pid: u16, p: Partition, e: Elem, len: u16)
    requires ByteUnits(g) && TotalSize(g) == |mem| && PartEnd(p) <= |mem|
    requires Readback(mem, pid, p, e) && p.hasFirstElement && |e.data| < 0x1_0000
    ensures CheckConflict(g, mem, pid, p, At(pid, e), e.address, len).ret == Forbidden
  {
    ValidAt(mem, pid, p, e);
    assert EndOf(pid, p.firstElementAddress, e.address, |e.data|) == End(pid, p.firstElementAddress, e);
    ByteUnitStart(g, e.address);
    ForbiddenIffTouching(g, mem, pid, p, At(pid, e), e.address, len);
    hide CheckValidity, CheckConflict, ReadHeader, HeaderLen, TotalSize, Holds;
    assert In(e.address, e.address, EndOf(pid, p.firstElementAddress, e.address, len));
    assert In(e.address, e.address, EndOf(pid, p.firstElementAddress, e.address, |e.data|));
  }

  /** A store that succeeds does not go where the iterator's element is. */
  lemma StoreGoesElsewhere(g: Geometry, mem: seq<byte>, pid: u16, p: Partition, data: seq<byte>, len: u16, e: Elem)
    requires CanStore(g, mem, pid, p, data, len) && PartEnd(p) <= |mem|
    requires Readback(mem, pid, p, e) && p.hasFirstElement
    requires |e.data| < 0x1_0000 && StoreElement(g, mem, pid, p, At(pid, e), data, len).ret == Success
    ensures StoredElem(pid, p, data, len).address != e.address
  {
    hide CheckConflict, StoreElement, Readback, StoredElem, TotalSize, Registered;
    StorePassesCheck(g, mem, pid, p, At(pid, e), data, len);
    ConflictAtElem(g, mem, pid, p, e, EffectiveLen(pid, p, len));
  }

  /** `x` lies directly behind where `e` goes, and was stored as many elements before it as there are slots, less one. */
  predicate DirectlyBehind(pid: u16, p: Partition, log: Log, e: Elem, i: nat) {
    && i < |All(log)| && |All(log)| == i + Slots(pid, p) - 1
    && p.firstElementAddress < All(log)[i].address == End(pid, p.firstElementAddress, e)
  }

  /** The identifiers come round with the slots, so that a store of `e` takes the element behind it for a stale successor. */
  predicate TakenForNext(pid: u16, p: Partition, log: Log, e: Elem, i: nat) {
    Slots(pid, p) % RECORD_IDS == 0 && DirectlyBehind(pid, p, log, e, i)
  }

  /** An element at address `x` is neither overwritten nor taken for the successor of `e`. */
  predicate OutOfHarm(pid: u16, p: Partition, e: Elem, x: nat) {
    x != e.address && !(Slots(pid, p) % RECORD_IDS == 0 && x == End(pid, p.firstElementAddress, e))
  }

  /** How many elements of the lap being overwritten a store costs: none that is out of harm. */
  lemma FewAreLost(mem: seq<byte>, pid: u16, p: Partition, log: Log, e: Elem, n: nat, k: nat, m: nat)
    requires LogInv(mem, pid, p, log) && RingInv(pid, p, log, n) && IntoSlot(pid, p, log, e, n, k)
    requires WellFormed(e) && Succeeds(Last(log.chain), e) && e.address == SlotAddress(pid, p, k)
    requires m < |SurvivingLap(pid, p, log, e)| && OutOfHarm(pid, p, e, SurvivingLap(pid, p, log, e)[m].address)
    ensures |SurvivingLap(pid, p, log, e)| - |From(SurvivingLap(pid, p, log, e), Reach(mem, pid, p, e))| <= m
  {
    hide *;
    LapInSlots(pid, p, log, e, n, k);
    ErasedInRing(mem, pid, p, log, e, n, k);
    SurvivorsInRing(mem, pid, p, log, e, n, k);
    HarmlessSlot(pid, p, log, e, n, k, m);
  }

  /** The slot of an element that is out of harm is not the one that is written, nor the next one if that is erased. */
  lemma HarmlessSlot(pid: u16, p: Partition, log: Log, e: Elem, n: nat, k: nat, m: nat)
    requires IntoSlot(pid, p, log, e, n, k) && e.address == SlotAddress(pid, p, k)
    requires m < |SurvivingLap(pid, p, log, e)| && OutOfHarm(pid, p, e, SurvivingLap(pid, p, log, e)[m].address)
    requires InSlots(pid, p, SurvivingLap(pid, p, log, e), FirstSlot(pid, p, log, e))
    ensures FirstSlot(pid, p, log, e) + m != k
    ensures Slots(pid, p) % RECORD_IDS == 0 ==> FirstSlot(pid, p, log, e) + m != k + 1
  {
    hide SlotAddress, Slots, End, Position, OlderCount, SurvivingLap, FirstSlot;
  }

  lemma LapInSlots(pid: u16, p: Partition, log: Log, e: Elem, n: nat, k: nat)
    requires RingInv(pid, p, log, n) && IntoSlot(pid, p, log, e, n, k)
    requires SurvivingLap(pid, p, log, e) != []
    ensures InSlots(pid, p, SurvivingLap(pid, p, log, e), FirstSlot(pid, p, log, e))
    ensures FirstSlot(pid, p, log, e) == k || (FirstSlot(pid, p, log, e) == k + 1 && Slots(pid, p) % RECORD_IDS == 0)
  {
    hide SlotAddress, Slots, HeaderLen, End, InSlots, Position;
  }

  lemma SlotsAreSorted(pid: u16, p: Partition, s: seq<Elem>, k: int)
    requires InSlots(pid, p, s, k)
    ensures forall i, j :: 0 <= i < j < |s| ==> s[i].address <= s[j].address
  {
    hide SlotAddress;
    forall i, j | 0 <= i < j < |s| ensures s[i].address <= s[j].address {
      assert s[i].address == SlotAddress(pid, p, k + i) && s[j].address == SlotAddress(pid, p, k + j);
      SlotsGrow(pid, p, k + i, k + j);
    }
  }

  /** The elements of the lap being overwritten survive, but for the one in the slot that is written and a taken one. */
  lemma OthersSurvive(mem: seq<byte>, pid: u16, p: Partition, log: Log, e: Elem, n: nat, k: nat, m: nat)
    requires LogInv(mem, pid, p, log) && RingInv(pid, p, log, n) && IntoSlot(pid, p, log, e, n, k)
    requires WellFormed(e) && Succeeds(Last(log.chain), e) && e.address == SlotAddress(pid, p, k)
    requires m < |SurvivingLap(pid, p, log, e)| && OutOfHarm(pid, p, e, SurvivingLap(pid, p, log, e)[m].address)
    ensures var s := SurvivingLap(pid, p, log, e);
            var r := From(s, Reach(mem, pid, p, e));
      && s[m] in r && Reach(mem, pid, p, e) <= s[m].address
  {
    var s := SurvivingLap(pid, p, log, e);
    hide LogInv, RingInv, IntoSlot, WellFormed, Succeeds, Slots, SlotAddress, SurvivingLap, From, Reach, FirstSlot, OutOfHarm;
    LapInSlots(pid, p, log, e, n, k);
    SlotsAreSorted(pid, p, s, FirstSlot(pid, p, log, e));
    FewAreLost(mem, pid, p, log, e, n, k, m);
    BehindBound(s, Reach(mem, pid, p, e), m);
  }

  lemma BehindBound(s: seq<Elem>, bound: nat, m: nat)
    requires |s| - |From(s, bound)| <= m < |s|
    requires forall i, j :: 0 <= i < j < |s| ==> s[i].address <= s[j].address
    ensures s[m] in From(s, bound) && bound <= s[m].address
  {
    var r := From(s, bound);
    assert s[m] == r[m - (|s| - |r|)];
    assert r[0] == s[|s| - |r|];
  }

  /** An element that a store does not hit and that is not in the growing chain survives in the other lap. */
  lemma InSurvivingLap(pid: u16, p: Partition, log: Log, e: Elem, n: nat, k: nat, i: nat)
    requires RingInv(pid, p, log, n) && IntoSlot(pid, p, log, e, n, k)
    requires i < |All(log)|
    ensures || (i < |SurvivingLap(pid, p, log, e)| && SurvivingLap(pid, p, log, e)[i] == All(log)[i])
            || (All(log)[i] in log.chain && e.address != p.firstElementAddress)
  {
    hide RingInv, IntoSlot;
    if e.address == p.firstElementAddress {
      FullLapHasNoOlder(pid, p, log, e, n, k);
    } else if i >= |log.older| {
      assert All(log)[i] == log.chain[i - |log.older|];
    }
  }

  /** Where an element of the log is after a store: in the log still, if it is out of harm. */
  lemma StoreSparesOthers(mem: seq<byte>, pid: u16, p: Partition, log: Log, e: Elem, n: nat, i: nat)
    requires LogInv(mem, pid, p, log) && RingInv(pid, p, log, n) && METADATA_SIZE <= p.metadata.partitionSize
    requires e.address == SlotAddress(pid, p, Position(n + 1, Slots(pid, p))) && |e.data| == p.metadata.firstElementLen
    requires WellFormed(e) && Succeeds(Last(log.chain), e)
    requires i < |All(log)| && OutOfHarm(pid, p, e, All(log)[i].address)
    ensures All(log)[i] in All(AfterStore(pid, p.firstElementAddress, log, e, Reach(mem, pid, p, e)))
    ensures Reach(mem, pid, p, e) <= All(log)[i].address || (All(log)[i] in log.chain && e.address != p.firstElementAddress)
  {
    var k := Position(n + 1, Slots(pid, p));
    var x := All(log)[i];
    hide *;
    StoreIntoSlot(mem, pid, p, log, e, n);
    InSurvivingLap(pid, p, log, e, n, k, i);
    if !(x in log.chain && e.address != p.firstElementAddress) {
      OthersSurvive(mem, pid, p, log, e, n, k, i);
    }
  }

  /** The element behind the one that is stored is as old as there are slots, less one. */
  lemma BehindIsOldest(mem: seq<byte>, pid: u16, p: Partition, log: Log, e: Elem, n: nat, i: nat)
    requires LogInv(mem, pid, p, log) && RingInv(pid, p, log, n) && METADATA_SIZE <= p.metadata.partitionSize
    requires e.address == SlotAddress(pid, p, Position(n + 1, Slots(pid, p))) && |e.data| == p.metadata.firstElementLen
    requires i < |All(log)| && All(log)[i].address == End(pid, p.firstElementAddress, e)
    ensures DirectlyBehind(pid, p, log, e, i)
  {
    var k := Position(n + 1, Slots(pid, p));
    hide LogInv, SlotAddress, Slots, End, Position, OlderCount, InSlots;
    StoreIntoSlot(mem, pid, p, log, e, n);
    SlotOfBehind(pid, p, log, e, n, k, i);
    BehindCounts(n, Slots(pid, p), k, |log.chain|, |log.older|, i);
  }

  /** Which slot the element at index `i` of the log is in, if it is slot `k + 1`. */
  lemma SlotOfBehind(pid: u16, p: Partition, log: Log, e: Elem, n: nat, k: nat, i: nat)
    requires RingInv(pid, p, log, n) && IntoSlot(pid, p, log, e, n, k)
    requires i < |All(log)| && All(log)[i].address == End(pid, p.firstElementAddress, e)
    ensures k + 1 == if i < |log.older| then Slots(pid, p) - |log.older| + i else i - |log.older|
  {
    hide SlotAddress, Slots, End, Position, OlderCount;
    var slots := Slots(pid, p);
    var j := if i < |log.older| then slots - |log.older| + i else i - |log.older|;
    assert All(log)[i].address == SlotAddress(pid, p, j);
    SlotsGrow(pid, p, j, k + 1);
  }

  lemma BehindCounts(n: nat, slots: nat, k: nat, chain: nat, older: nat, i: nat)
    requires slots > 0 && n > 0 && k == Position(n + 1, slots) && k == (if chain == slots then 0 else chain)
    requires 0 < chain && chain - 1 == Position(n, slots) && older == OlderCount(n, slots) && i < older + chain
    requires k + 1 == if i < older then slots - older + i else i - older
    ensures older + chain == i + slots - 1
  {
    hide Position;
    PositionAdvances(n, slots);
  }

  lemma FullLapHasNoOlder(pid: u16, p: Partition, log: Log, e: Elem, n: nat, k: nat)
    requires RingInv(pid, p, log, n) && IntoSlot(pid, p, log, e, n, k) && e.address == p.firstElementAddress
    ensures log.older == []
  {
    hide SlotAddress, Slots, InSlots, End;
    PositionAdvances(n, Slots(pid, p));
    hide Position;
  }

  /** What a successful store changes. */
  lemma StoreChanges(g: Geometry, mem: seq<byte>, pid: u16, p: Partition, it: Iterator, data: seq<byte>, len: u16, log: Log)
    requires CanStore(g, mem, pid, p, data, len) && PartInv(mem, pid, p, log)
    requires StoreElement(g, mem, pid, p, it, data, len).ret == Success
    ensures var r := StoreElement(g, mem, pid, p, it, data, len);
            var e := StoredElem(pid, p, data, len);
      && StoreChanged(mem, Apply(mem, r.writes), pid, e.address, Reach(mem, pid, p, e))
      && WellFormed(e) && Continues(log, e)
      && (!IsDynamic(pid) ==> |e.data| == p.metadata.firstElementLen)
      && (e.address == p.firstElementAddress
          || (log.chain != [] && e.address == End(pid, p.firstElementAddress, Last(log.chain))))
  {
    var e := StoredElem(pid, p, data, len);
    var r := StoreElement(g, mem, pid, p, it, data, len);
    StoredElemContinues(mem, pid, p, data, len, log);
    PartIsStable(mem, pid, p, log);
    StoreUnfolds(g, mem, pid, p, it, data, len);
    assert Committing(g, mem, pid, p, Placement(pid, p, |e.data|), e);
    hide StoreElement, Placement, Committing, PartInv, Apply, Reach, ClearOf, CommitElement, Stable, StoredElem, CanStore;
    CommitEffect(g, mem, pid, p, r.iter, Placement(pid, p, |e.data|), e);
  }

  /** An element out of a store's reach keeps its bytes. */
  lemma BytesKept(mem: seq<byte>, mem': seq<byte>, pid: u16, p: Partition, log: Log, e: Elem, x: Elem, reach: nat)
    requires LogInv(mem, pid, p, log) && StoreChanged(mem, mem', pid, e.address, reach)
    requires x in All(log)
    requires e.address == p.firstElementAddress || e.address == End(pid, p.firstElementAddress, Last(log.chain))
    requires reach <= x.address || (x in log.chain && e.address != p.firstElementAddress)
    ensures Agree(mem, mem', x.address, End(pid, p.firstElementAddress, x))
  {
    hide StoreChanged, LiesFirst, Lies, NoNext, Linked, HeaderLen, End, Succeeds, Registered;
    ChainInBounds(mem, pid, p, log.chain);
    if log.older != [] {
      OlderInBounds(mem, pid, p, log.older, log.chain);
      assert p.firstElementAddress <= log.older[0].address by {
        assert Lies(mem, pid, p.firstElementAddress, log.older[0]);
        LiesBehind(mem, pid, p.firstElementAddress, log.older[0]);
      }
    }
    OutOfReach(mem, mem', pid, p, e.address, reach, x.address, End(pid, p.firstElementAddress, x));
  }

  lemma LiesBehind(mem: seq<byte>, pid: u16, start: nat, e: Elem)
    requires Lies(mem, pid, start, e)
    ensures start <= e.address
  {
  }

  /** The element stored next into a ring. */
  lemma RingElem(mem: seq<byte>, pid: u16, p: Partition, log: Log, n: nat, data: seq<byte>, len: u16)
    requires LogInv(mem, pid, p, log) && RingInv(pid, p, log, n) && EffectiveLen(pid, p, len) <= |data|
    requires EffectiveLen(pid, p, len) == p.metadata.firstElementLen
    ensures METADATA_SIZE <= p.metadata.partitionSize
    ensures StoredElem(pid, p, data, len).address == SlotAddress(pid, p, Position(n + 1, Slots(pid, p)))
  {
    LatestEnds(mem, pid, p, log);
    hide LogInv, RingInv, SlotAddress, Slots, Position, Placement;
    NextSlot(mem, pid, p, log, n);
  }

  /** The element stays in the log, with every one of its bytes. */
  ghost predicate Unharmed(mem: seq<byte>, mem': seq<byte>, pid: u16, p: Partition, log: Log, x: Elem) {
    x in All(log) && Agree(mem, mem', x.address, End(pid, p.firstElementAddress, x))
  }

  /** A store that succeeds does not touch the element under the iterator, unless it takes it for the one after its own. */
  lemma StoreSparesIterator(g: Geometry, mem: seq<byte>, pid: u16, p: Partition, data: seq<byte>, len: u16, log: Log, n: nat, i: nat)
    requires CanStore(g, mem, pid, p, data, len) && LogInv(mem, pid, p, log) && RingInv(pid, p, log, n)
    requires i < |All(log)| && |All(log)[i].data| < 0x1_0000
    requires StoreElement(g, mem, pid, p, At(pid, All(log)[i]), data, len).ret == Success
    requires !TakenForNext(pid, p, log, StoredElem(pid, p, data, len), i)
    ensures var x := All(log)[i];
            var r := StoreElement(g, mem, pid, p, At(pid, x), data, len);
            var e := StoredElem(pid, p, data, len);
            Unharmed(mem, Apply(mem, r.writes), pid, p, AfterStore(pid, p.firstElementAddress, log, e, Reach(mem, pid, p, e)), x)
  {
    var x := All(log)[i];
    var r := StoreElement(g, mem, pid, p, At(pid, x), data, len);
    var e := StoredElem(pid, p, data, len);
    LogIsPart(mem, pid, p, log);
    LogReadback(mem, pid, p, log);
    LatestEnds(mem, pid, p, log);
    hide LogInv, StoreElement, Readback, StoreChanged, RingInv, CanStore, Reach, Slots, SlotAddress, WellFormed, Succeeds, At, Apply,
      Position, StoredElem, AfterStore, End, PartInv, Stable, DirectlyBehind;
    PartIsStable(mem, pid, p, log);
    StoreChanges(g, mem, pid, p, At(pid, x), data, len, log);
    StoreGoesElsewhere(g, mem, pid, p, data, len, x);
    RingElem(mem, pid, p, log, n, data, len);
    if x.address == End(pid, p.firstElementAddress, e) {
      BehindIsOldest(mem, pid, p, log, e, n, i);
    }
    StoreSparesOthers(mem, pid, p, log, e, n, i);
    BytesKept(mem, Apply(mem, r.writes), pid, p, log, e, x, Reach(mem, pid, p, e));
  }

  lemma LogIsPart(mem: seq<byte>, pid: u16, p: Partition, log: Log)
    requires LogInv(mem, pid, p, log)
    ensures PartInv(mem, pid, p, log)
  {
    ChainOfLog(mem, pid, p, log);
    hide LogInv;
  }

  /** Then the iterator goes on as if nothing had been stored: it is valid, and reads the same payload. */
  lemma IteratorStays(g: Geometry, mem: seq<byte>, pid: u16, p: Partition, data: seq<byte>, len: u16, log: Log, n: nat, i: nat)
    requires CanStore(g, mem, pid, p, data, len) && LogInv(mem, pid, p, log) && RingInv(pid, p, log, n)
    requires i < |All(log)| && |All(log)[i].data| < 0x1_0000
    requires StoreElement(g, mem, pid, p, At(pid, All(log)[i]), data, len).ret == Success
    requires !TakenForNext(pid, p, log, StoredElem(pid, p, data, len), i)
    ensures var x := All(log)[i];
            var r := StoreElement(g, mem, pid, p, At(pid, x), data, len);
            IteratorRead(Apply(mem, r.writes), pid, r.part, At(pid, x))
            == ElementRead(Outcome(Success, r.part, At(pid, x), []), x.data, x.id)
  {
    var x := All(log)[i];
    var r := StoreElement(g, mem, pid, p, At(pid, x), data, len);
    var e := StoredElem(pid, p, data, len);
    var log' := AfterStore(pid, p.firstElementAddress, log, e, Reach(mem, pid, p, e));
    var mem' := Apply(mem, r.writes);
    hide *;
    StoreSparesIterator(g, mem, pid, p, data, len, log, n, i);
    LogIsPart(mem, pid, p, log);
    StoreKeeps(g, mem, pid, p, At(pid, x), data, len, log);
    ChainNotEmpty(pid, p.firstElementAddress, log, e, Reach(mem, pid, p, e));
    PartIsLog(mem', pid, r.part, log');
    UnharmedIsIn(mem, mem', pid, p, log', x);
    ReadInLog(mem', pid, r.part, log', x);
  }

  lemma UnharmedIsIn(mem: seq<byte>, mem': seq<byte>, pid: u16, p: Partition, log: Log, x: Elem)
    requires Unharmed(mem, mem', pid, p, log, x)
    ensures x in All(log)
  {
  }

  lemma PartIsLog(mem: seq<byte>, pid: u16, p: Partition, log: Log)
    requires PartInv(mem, pid, p, log) && log.chain != []
    ensures LogInv(mem, pid, p, log)
  {
  }

  lemma ReadInLog(mem: seq<byte>, pid: u16, p: Partition, log: Log, x: Elem)
    requires LogInv(mem, pid, p, log) && x in All(log) && |x.data| < 0x1_0000
    ensures IteratorRead(mem, pid, p, At(pid, x)) == ElementRead(Outcome(Success, p, At(pid, x), []), x.data, x.id)
  {
    LogReadback(mem, pid, p, log);
    LatestEnds(mem, pid, p, log);
    hide LogInv, Readback, IteratorRead, NoNext, At;
    ReadAt(mem, pid, p, x);
  }

  // ---- checksums ----

  /** Storage with two adjacent bytes of the payload at `from` corrupted, the first of them byte `k`. */
  ghost predicate Corrupted(mem: seq<byte>, mem': seq<byte>, from: nat, n: nat, k: nat) {
    && from + n <= |mem| == |mem'| && mem'[from..from + n] != mem[from..from + n] && k < n
    && forall i :: 0 <= i < |mem| && i != from + k && !(i == from + k + 1 < from + n) ==> mem'[i] == mem[i]
  }

  /** The header in front of a corrupted payload still reads the same. */
  lemma HeaderUnharmed(mem: seq<byte>, mem': seq<byte>, pid: u16, p: Partition, e: Elem, k: nat)
    requires Readback(mem, pid, p, e)
    requires Corrupted(mem, mem', e.address + FullHeaderLen(pid, p.firstElementAddress, e.address), |e.data|, k)
    ensures ReadHeader(mem', pid, p, e.address) == ReadHeader(mem, pid, p, e.address)
  {
    hide Judge, DeserializeHeader, Checksum, Kept;
    var from := e.address + FullHeaderLen(pid, p.firstElementAddress, e.address);
    assert mem'[e.address..from] == mem[e.address..from];
  }

  lemma StillValid(mem: seq<byte>, mem': seq<byte>, pid: u16, p: Partition, e: Elem)
    requires Readback(mem, pid, p, e) && p.hasFirstElement && |e.data| < 0x1_0000
    requires ReadHeader(mem', pid, p, e.address) == ReadHeader(mem, pid, p, e.address)
    ensures CheckValidity(mem', pid, p, At(pid, e)) == Outcome(Success, p, At(pid, e), [])
  {
    ValidAt(mem, pid, p, e);
    hide ReadHeader, Checksum, Holds, AllFit, SameButMetadata, HeaderLen;
  }

  /** In a partition with element checksums, such a corruption does not go unnoticed. */
  lemma CorruptionIsNoticed(mem: seq<byte>, mem': seq<byte>, pid: u16, p: Partition, e: Elem, k: nat)
    requires HasCrc(pid) && Readback(mem, pid, p, e) && p.hasFirstElement && |e.data| < 0x1_0000
    requires Corrupted(mem, mem', e.address + FullHeaderLen(pid, p.firstElementAddress, e.address), |e.data|, k)
    ensures IteratorRead(mem', pid, p, At(pid, e)).outcome.ret == InvalidData
  {
    hide Checksum, ReadHeader, HeaderLen, CheckValidity, Apply, AllFit, SameButMetadata;
    var from := e.address + FullHeaderLen(pid, p.firstElementAddress, e.address);
    HeaderUnharmed(mem, mem', pid, p, e, k);
    StillValid(mem, mem', pid, p, e);
    assert mem[from..from + |e.data|] == e.data;
    BurstChangesChecksum(mem'[from..from + |e.data|], e.data, k);
    ApplyNothing(mem');
    hide Corrupted, FullHeaderLen;
  }
}
