/** Filling a static partition: every store succeeds if storage goes on behind it, the last slot is never written if not. */
module FsFills {
  import opened Bytes
  import opened Words
  import opened Crc16
  import opened Units
  import opened FsTypes
  import opened FsSpec
  import opened FsLog
  import opened FsStore
  import opened FsKeep
  import opened FsClear
  import opened FsWalk
  import opened FsRing
  import opened FsRingWalk
  import opened FsRingExact
  import opened FsIterator
  import opened FsHistory
  import opened FsStanding
  import opened FsPerform
  import opened FsSucceeds

  /** Storage goes on behind the last slot for as many bytes as a header has. */
  predicate RoomBehind(size: nat, pid: u16, p: Partition) {
    SlotAddress(pid, p, Slots(pid, p)) + HeaderLen(pid) <= size
  }

  lemma ShapeKeepsRoom(size: nat, pid: u16, p: Partition, q: Partition)
    requires SameShape(pid, p, q) && !IsDynamic(pid)
    ensures RoomBehind(size, pid, q) <==> RoomBehind(size, pid, p)
    ensures Slots(pid, q) == Slots(pid, p)
  {
    SlotsOfShape(pid, p, q);
    hide SlotAddress, SameShape, HeaderLen;
    assert SlotAddress(pid, q, Slots(pid, p)) == SlotAddress(pid, p, Slots(pid, p));
  }

  /** A payload of the partition's length. */
  predicate OfCommonLen(p: Partition, d: seq<byte>) { |d| == p.metadata.firstElementLen }

  // ---- where the next element goes ----

  /** The next element of a partition that has been given `n` payloads goes into the slot after theirs, round and round. */
  lemma NextGoesToSlot(mem: seq<byte>, pid: u16, p: Partition, log: Log, hist: seq<seq<byte>>, data: seq<byte>, len: u16)
    requires PartHolds(mem, pid, p, log, hist) && !IsDynamic(pid) && EffectiveLen(pid, p, len) <= |data|
    requires EffectiveLen(pid, p, len) == p.metadata.firstElementLen
    ensures Slots(pid, p) > 0 && METADATA_SIZE <= p.metadata.partitionSize
    ensures var e := StoredElem(pid, p, data, len);
            var k := Position(|hist| + 1, Slots(pid, p));
      && e.address == SlotAddress(pid, p, k) && End(pid, p.firstElementAddress, e) == SlotAddress(pid, p, k + 1)
  {
    var slots, e := Slots(pid, p), StoredElem(pid, p, data, len);
    hide *;
    if hist == [] {
      PositionAdvances(1, slots);
      SlotZero(pid, p);
    } else {
      HoldsLog(mem, pid, p, log, hist);
      RingElem(mem, pid, p, log, |hist|, data, len);
    }
    SlotFollows(pid, p, e, Position(|hist| + 1, slots));
  }

  // ---- the last slot ----

  /** If storage ends too soon behind the last slot, the store that would fill it is refused. */
  lemma LastSlotRefused(g: Geometry, mem: seq<byte>, pid: u16, p: Partition, it: Iterator, data: seq<byte>, len: u16, log: Log,
                        hist: seq<seq<byte>>)
    requires CanStore(g, mem, pid, p, data, len) && PartHolds(mem, pid, p, log, hist) && !IsDynamic(pid)
    requires !RoomBehind(|mem|, pid, p) && |hist| + 1 == Slots(pid, p)
    ensures var r := StoreElement(g, mem, pid, p, it, data, len);
            r.ret != Success && r.writes == [] && r.part == p
  {
    assert EffectiveLen(pid, p, len) <= |data|;
    hide PartInv, HistoryInv, StoreElement, StoredElem, SlotAddress, Slots, CanStore, Position, End;
    if EffectiveLen(pid, p, len) == p.metadata.firstElementLen {
      NextGoesToSlot(mem, pid, p, log, hist, data, len);
      PositionAdvances(|hist| + 1, Slots(pid, p));
      RefusedAtEnd(g, mem, pid, p, it, data, len, log);
    } else {
      SucceedsIff(g, mem, pid, p, it, data, len, log);
      FailureKeeps(g, mem, pid, p, it, data, len, log);
    }
  }

  /** If it goes on, every store with an iterator out of the way succeeds. */
  lemma RingStoreSucceeds(g: Geometry, mem: seq<byte>, pid: u16, p: Partition, it: Iterator, data: seq<byte>, log: Log,
                          hist: seq<seq<byte>>)
    requires OfCommonLen(p, data) && |data| < 0x1_0000
    requires CanStore(g, mem, pid, p, data, |data|) && PartHolds(mem, pid, p, log, hist) && !IsDynamic(pid)
    requires RoomBehind(|mem|, pid, p) && !it.valid
    ensures StoreElement(g, mem, pid, p, it, data, |data|).ret == Success
  {
    var e := StoredElem(pid, p, data, |data|);
    assert ByteUnits(g) && |e.data| == |data| && LegalLen(pid, p, |data|);
    hide PartInv, HistoryInv, StoreElement, StoredElem, SlotAddress, Slots, CanStore, End, HeaderLen, CheckConflict, HasRoom, RoomBehind,
      LegalLen;
    RoomForNext(mem, pid, p, log, hist, data);
    InvalidIsFree(g, mem, pid, p, it, e.address, |e.data|);
    SucceedsIff(g, mem, pid, p, it, data, |data|, log);
  }

  lemma RoomForNext(mem: seq<byte>, pid: u16, p: Partition, log: Log, hist: seq<seq<byte>>, data: seq<byte>)
    requires OfCommonLen(p, data) && |data| < 0x1_0000
    requires PartHolds(mem, pid, p, log, hist) && !IsDynamic(pid) && RoomBehind(|mem|, pid, p)
    ensures HasRoom(mem, pid, p, StoredElem(pid, p, data, |data|))
  {
    hide PartHolds, StoredElem, SlotAddress, Position, End, HeaderLen;
    NextGoesToSlot(mem, pid, p, log, hist, data, |data|);
    var slots := Slots(pid, p);
    var k := Position(|hist| + 1, slots);
    hide Slots;
    SlotFits(pid, p, k);
    SlotsGrow(pid, p, k + 1, slots);
  }

  // ---- many stores ----

  datatype State = State(mem: seq<byte>, part: Partition, iter: Iterator)

  predicate CanStoreIn(g: Geometry, pid: u16, s: State, d: seq<byte>) {
    |d| < 0x1_0000 && CanStore(g, s.mem, pid, s.part, d, |d|)
  }

  function AfterOne(g: Geometry, pid: u16, s: State, d: seq<byte>): State
    requires CanStoreIn(g, pid, s, d)
  {
    hide StoreElement;
    var r := StoreElement(g, s.mem, pid, s.part, s.iter, d, |d|);
    State(Apply(s.mem, r.writes), r.part, r.iter)
  }

  predicate Accepts(g: Geometry, pid: u16, s: State, d: seq<byte>) {
    CanStoreIn(g, pid, s, d) && StoreElement(g, s.mem, pid, s.part, s.iter, d, |d|).ret == Success
  }

  /** Storing the payloads one after the other leads to `s'`, and every single store succeeds. */
  predicate AllStored(g: Geometry, pid: u16, s: State, datas: seq<seq<byte>>, s': State)
    decreases |datas|
  {
    hide CanStoreIn, StoreElement, AfterOne;
    if datas == [] then s' == s
    else Accepts(g, pid, s, datas[0]) && AllStored(g, pid, AfterOne(g, pid, s, datas[0]), datas[1..], s')
  }

  /** A static partition that holds `hist`, with storage behind it and no valid iterator. */
  predicate Ready(g: Geometry, pid: u16, s: State, log: Log, hist: seq<seq<byte>>) {
    && ByteUnits(g) && TotalSize(g) == |s.mem| && !IsDynamic(pid) && !s.iter.valid
    && PartHolds(s.mem, pid, s.part, log, hist) && RoomBehind(|s.mem|, pid, s.part)
  }

  lemma ReadyCanStore(g: Geometry, pid: u16, s: State, log: Log, hist: seq<seq<byte>>, d: seq<byte>)
    requires Ready(g, pid, s, log, hist) && OfCommonLen(s.part, d)
    ensures CanStoreIn(g, pid, s, d) && |d| < 0x1_0000 && CanStore(g, s.mem, pid, s.part, d, |d|)
    ensures ByteUnits(g) && Regular(g) && TotalSize(g) == |s.mem| && !IsDynamic(pid) && !s.iter.valid
    ensures Registered(s.mem, pid, s.part) && EffectiveLen(pid, s.part, |d|) <= |d|
    ensures PartHolds(s.mem, pid, s.part, log, hist) && RoomBehind(|s.mem|, pid, s.part)
  {
    PartIsStable(s.mem, pid, s.part, log);
    hide PartInv, HistoryInv, RoomBehind, Registered, Stable;
  }

  lemma OneMore(g: Geometry, pid: u16, s: State, log: Log, hist: seq<seq<byte>>, d: seq<byte>) returns (log': Log)
    requires Ready(g, pid, s, log, hist) && OfCommonLen(s.part, d)
    ensures Accepts(g, pid, s, d)
    ensures var s' := AfterOne(g, pid, s, d);
            Ready(g, pid, s', log', hist + [d]) && SameShape(pid, s.part, s'.part)
  {
    hide *;
    ReadyCanStore(g, pid, s, log, hist, d);
    var mem, p, it := s.mem, s.part, s.iter;
    var e := StoredElem(pid, p, d, |d|);
    log' := AfterStore(pid, p.firstElementAddress, log, e, Reach(mem, pid, p, e));
    RingStoreSucceeds(g, mem, pid, p, it, d, log, hist);
    WholeLen(pid, p, d);
    StoreAppends(g, mem, pid, p, it, d, |d|, log, hist);
    HoldsPart(mem, pid, p, log, hist);
    PerformKeepsShape(g, mem, pid, p, it, d, |d|, log);
    StoreChecks(g, mem, pid, p, it, d, |d|);
    InvalidIsFree(g, mem, pid, p, it, e.address, EffectiveLen(pid, p, |d|));
    StillReady(g, pid, s, hist, d, log');
  }

  lemma WholeLen(pid: u16, p: Partition, d: seq<byte>)
    requires OfCommonLen(p, d) && |d| < 0x1_0000
    ensures EffectiveLen(pid, p, |d|) == |d| && d[..|d|] == d
  {
  }

  lemma StillReady(g: Geometry, pid: u16, s: State, hist: seq<seq<byte>>, d: seq<byte>, log': Log)
    requires CanStoreIn(g, pid, s, d) && ByteUnits(g) && TotalSize(g) == |s.mem| && !IsDynamic(pid)
    requires RoomBehind(|s.mem|, pid, s.part)
    requires var r := StoreElement(g, s.mem, pid, s.part, s.iter, d, |d|);
      && r.ret == Success && !r.iter.valid && SameShape(pid, s.part, r.part)
      && PartHolds(Apply(s.mem, r.writes), pid, r.part, log', hist + [d])
    ensures Accepts(g, pid, s, d)
    ensures var s' := AfterOne(g, pid, s, d); Ready(g, pid, s', log', hist + [d]) && SameShape(pid, s.part, s'.part)
  {
    hide StoreElement, PartHolds, CanStore, RoomBehind, SameShape, TotalSize, ByteUnits;
    ShapeKeepsRoom(|s.mem|, pid, s.part, AfterOne(g, pid, s, d).part);
  }

  lemma HoldsPart(mem: seq<byte>, pid: u16, p: Partition, log: Log, hist: seq<seq<byte>>)
    requires PartHolds(mem, pid, p, log, hist)
    ensures PartInv(mem, pid, p, log)
  {
    hide PartInv, HistoryInv;
  }

  predicate AllOfCommonLen(p: Partition, datas: seq<seq<byte>>) {
    forall d <- datas :: OfCommonLen(p, d)
  }

  lemma CommonLenOfShape(pid: u16, p: Partition, q: Partition, datas: seq<seq<byte>>)
    requires AllOfCommonLen(p, datas) && SameShape(pid, p, q) && !IsDynamic(pid) && datas != []
    ensures OfCommonLen(p, datas[0]) && AllOfCommonLen(q, datas[1..])
  {
    assert forall x <- datas[1..] :: x in datas;
  }

  lemma SameShapeTwice(pid: u16, p: Partition, q: Partition, r: Partition)
    requires SameShape(pid, p, q) && SameShape(pid, q, r)
    ensures SameShape(pid, p, r)
  {
  }

  lemma SelfShape(pid: u16, p: Partition)
    ensures SameShape(pid, p, p)
  {
  }

  lemma ReadyIsStatic(g: Geometry, pid: u16, s: State, log: Log, hist: seq<seq<byte>>)
    requires Ready(g, pid, s, log, hist)
    ensures !IsDynamic(pid)
  {
  }

  lemma NoneStored(g: Geometry, pid: u16, s: State)
    ensures AllStored(g, pid, s, [], s)
  {
  }

  lemma OneMoreStored(g: Geometry, pid: u16, s: State, datas: seq<seq<byte>>, s': State)
    requires datas != [] && CanStoreIn(g, pid, s, datas[0]) && Accepts(g, pid, s, datas[0])
    requires AllStored(g, pid, AfterOne(g, pid, s, datas[0]), datas[1..], s')
    ensures AllStored(g, pid, s, datas, s')
  {
    hide Accepts, CanStoreIn, AfterOne;
  }

  /** A static partition with storage behind it takes any number of payloads, and remembers them in order. */
  lemma {:induction false} StoresSucceed(g: Geometry, pid: u16, s: State, log: Log, hist: seq<seq<byte>>, datas: seq<seq<byte>>)
    returns (s': State, log': Log)
    requires Ready(g, pid, s, log, hist) && AllOfCommonLen(s.part, datas)
    ensures AllStored(g, pid, s, datas, s') && Ready(g, pid, s', log', hist + datas) && SameShape(pid, s.part, s'.part)
    decreases |datas|
  {
    hide *;
    ReadyIsStatic(g, pid, s, log, hist);
    SelfShape(pid, s.part);
    if datas == [] {
      s', log' := s, log;
      NoneStored(g, pid, s);
      assert hist + datas == hist;
    } else {
      var d := datas[0];
      CommonLenOfShape(pid, s.part, s.part, datas);
      var next := OneMore(g, pid, s, log, hist, d);
      AcceptsCan(g, pid, s, d);
      var s1 := AfterOne(g, pid, s, d);
      CommonLenOfShape(pid, s.part, s1.part, datas);
      s', log' := StoresSucceed(g, pid, s1, next, hist + [d], datas[1..]);
      SameShapeTwice(pid, s.part, s1.part, s'.part);
      OneMoreStored(g, pid, s, datas, s');
      assert hist + [d] + datas[1..] == hist + datas;
    }
  }

  lemma AcceptsCan(g: Geometry, pid: u16, s: State, d: seq<byte>)
    requires Accepts(g, pid, s, d)
    ensures CanStoreIn(g, pid, s, d)
  {
  }

  /**
   * So the cases in which the ring is not exact do arise: from an empty partition with storage behind it, any payloads of
   * the right length are all stored, and the walk back then yields the newest ones exactly if `KeepsAll` says so.
   */
  lemma FilledRing(g: Geometry, pid: u16, s: State, datas: seq<seq<byte>>) returns (s': State)
    requires Ready(g, pid, s, EMPTY_LOG, []) && datas != [] && AllOfCommonLen(s.part, datas)
    ensures AllStored(g, pid, s, datas, s')
    ensures YieldsNewest(s'.mem, pid, s'.part, s'.iter, datas) <==> KeepsAll(Slots(pid, s.part), |datas|)
  {
    var log': Log;
    s', log' := StoresSucceed(g, pid, s, EMPTY_LOG, [], datas);
    assert [] + datas == datas;
    ShapeKeepsRoom(|s.mem|, pid, s.part, s'.part);
    hide YieldsNewest, KeepsAll, Slots, PartHolds, AllStored, RoomBehind, SameShape;
    WalkYieldsNewestIff(s'.mem, pid, s'.part, s'.iter, log', datas);
  }

  /** Two slots, three stores: the walk yields the last payload and nothing more. */
  lemma TwoSlotsForget(g: Geometry, pid: u16, s: State, a: seq<byte>, b: seq<byte>, c: seq<byte>) returns (s': State)
    requires Ready(g, pid, s, EMPTY_LOG, []) && Slots(pid, s.part) == 2
    requires OfCommonLen(s.part, a) && OfCommonLen(s.part, b) && OfCommonLen(s.part, c)
    ensures AllStored(g, pid, s, [a, b, c], s')
    ensures DataOf(WalkBack(s'.mem, pid, s'.part, IteratorInit(s'.mem, pid, s'.part, s'.iter).iter, 2)) == [c]
    ensures NewestOf([a, b, c], 2) == [c, b]
  {
    var log', datas := EMPTY_LOG, [a, b, c];
    s', log' := StoresSucceed(g, pid, s, EMPTY_LOG, [], datas);
    assert [] + datas == datas;
    ShapeKeepsRoom(|s.mem|, pid, s.part, s'.part);
    hide *;
    WalkOfThree(g, pid, s', log', a, b, c);
    assert NewestOf([a, b, c], 2) == [c, b] by { NewestTwo(a, b, c); }
  }

  lemma NewestTwo(a: seq<byte>, b: seq<byte>, c: seq<byte>)
    ensures NewestOf([a, b, c], 2) == [c, b]
  {
  }

  lemma WalkOfThree(g: Geometry, pid: u16, s: State, log: Log, a: seq<byte>, b: seq<byte>, c: seq<byte>)
    requires Ready(g, pid, s, log, [a, b, c]) && Slots(pid, s.part) == 2
    ensures DataOf(WalkBack(s.mem, pid, s.part, IteratorInit(s.mem, pid, s.part, s.iter).iter, 2)) == [c]
  {
    var datas := [a, b, c];
    hide Slots, LogInv, EmptyInv, RoomBehind, WalkBack, IteratorInit, Newest, RingInv, HoldsLap, Reachable, Payloads, TotalSize;
    HoldsLog(s.mem, pid, s.part, log, datas);
    OneIsLeft(pid, s.part, log);
    assert !ComesRound(2, 3);
    WalkInRing(s.mem, pid, s.part, s.iter, log, 3, 2);
    ReachableIsSuffix(log, datas);
    NewestPayloads(Reachable(log), datas, 2);
  }

  lemma OneIsLeft(pid: u16, p: Partition, log: Log)
    requires RingInv(pid, p, log, 3) && Slots(pid, p) == 2
    ensures |Reachable(log)| == 1
  {
    hide Slots, SlotAddress, InSlots;
  }
}
