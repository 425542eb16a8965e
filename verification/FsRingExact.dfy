/** A static partition as an exact ring: when a walk back yields the newest elements it has room for, and when not. */
module FsRingExact {
  import opened Bytes
  import opened Words
  import opened Units
  import opened FsTypes
  import opened FsSpec
  import opened FsLog
  import opened FsStore
  import opened FsWalk
  import opened FsRing
  import opened FsRingWalk

  /** After `n` stores into `slots` slots a walk back has nothing missing and nothing twice. */
  predicate KeepsAll(slots: nat, n: nat) {
    && !(slots == 2 && n > 2 && n % 2 == 1)
    && !(slots % RECORD_IDS == 0 && n > slots)
  }

  /** The record identifiers have come round, and the lap is full: the first element looks like the one after the latest. */
  predicate ComesRound(slots: nat, n: nat)
    requires slots > 0 && n > 0
  {
    slots % RECORD_IDS == 0 && n > slots && Position(n, slots) == slots - 1
  }

  // ---- counting ----

  lemma OddPosition(n: nat)
    requires n > 2
    ensures Position(n, 2) == 0 <==> n % 2 == 1
  {
  }

  /** How many elements a walk back can reach after `n` stores: as many as there are slots for, with exactly these exceptions. */
  lemma ReachableCount(pid: u16, p: Partition, log: Log, n: nat)
    requires RingInv(pid, p, log, n)
    ensures var slots := Slots(pid, p);
      |Reachable(log)| == Min(n, slots) <==>
        !(slots == 2 && n > 2 && n % 2 == 1) && !(slots % RECORD_IDS == 0 && n > slots && Position(n, slots) != slots - 1)
    ensures ComesRound(Slots(pid, p), n) ==> Reachable(log) == log.chain && |log.chain| == Slots(pid, p)
  {
    hide SlotAddress, InSlots, Slots;
    var slots := Slots(pid, p);
    PositionAdvances(n, slots);
    if slots == 2 && n > 2 {
      OddPosition(n);
    }
    hide Position;
  }

  // ---- the oldest element when the identifiers come round ----

  /** The new lap, what is left of the last one behind an erased slot, and where the oldest element will look. */
  lemma PeriodShape(mem: seq<byte>, pid: u16, p: Partition, log: Log, n: nat)
    requires LogInv(mem, pid, p, log) && RingInv(pid, p, log, n)
    requires Slots(pid, p) % RECORD_IDS == 0 && n > Slots(pid, p) && !ComesRound(Slots(pid, p), n)
    ensures !IsDynamic(pid) && Reachable(log) == All(log) && |All(log)| == Slots(pid, p) - 1 && log.chain != []
    ensures |log.chain| < Slots(pid, p)
    ensures log.older != [] ==> log.older[0].address == SlotAddress(pid, p, |log.chain| + 1)
    ensures log.older == [] ==> p.metadata.lastElementAddress == SlotAddress(pid, p, |log.chain|)
    ensures log.chain[0].address == p.firstElementAddress
  {
    hide LogInv, SlotAddress, Slots, HeaderLen, InSlots;
    var slots := Slots(pid, p);
    PositionAdvances(n, slots);
    hide Position;
    assert InSlots(pid, p, log.older, slots - |log.older|) && InSlots(pid, p, log.chain, 0);
    SlotOfFirst(pid, p, log.chain, 0);
    SlotZero(pid, p);
    if log.older != [] {
      SlotOfFirst(pid, p, log.older, slots - |log.older|);
    }
  }

  lemma SlotOfFirst(pid: u16, p: Partition, s: seq<Elem>, first: nat)
    requires s != [] && InSlots(pid, p, s, first)
    ensures s[0].address == SlotAddress(pid, p, first)
  {
    hide SlotAddress;
    assert s[0].address == SlotAddress(pid, p, first + 0);
  }

  /** The slot behind the latest element is one of the partition. */
  lemma BehindLatest(mem: seq<byte>, pid: u16, p: Partition, log: Log, n: nat)
    requires LogInv(mem, pid, p, log) && RingInv(pid, p, log, n) && |log.chain| < Slots(pid, p)
    ensures var next := End(pid, p.firstElementAddress, Last(log.chain));
      && next == SlotAddress(pid, p, |log.chain|) && next > p.firstElementAddress
      && next + HeaderLen(pid) + p.metadata.firstElementLen <= PartEnd(p)
  {
    LatestEnds(mem, pid, p, log);
    hide LogInv, RingInv, SlotAddress, Slots, HeaderLen, Position, End;
    NextSlot(mem, pid, p, log, n);
    SlotZero(pid, p);
    SlotsGrow(pid, p, 0, |log.chain|);
    SlotFits(pid, p, |log.chain|);
    EndPlusSlot(pid, p, |log.chain|);
  }

  /** The identifier before the oldest element's is the one after the latest element's. */
  lemma OldestFollowsLatest(mem: seq<byte>, pid: u16, p: Partition, log: Log, slots: nat)
    requires LogInv(mem, pid, p, log) && |All(log)| == slots - 1 && slots % RECORD_IDS == 0
    ensures All(log) != [] && DecrementRecordId(All(log)[0].id) == IncrementRecordId(Last(log.chain).id)
  {
    hide LogInv, RecordIdAfter, IncrementRecordId, DecrementRecordId, WellFormed;
    var s := All(log);
    ChainOfLog(mem, pid, p, log);
    LogConsecutive(mem, pid, p, log);
    HasRecordId(s[0]);
    IdsAlong(s, |s| - 1);
    IncrementIsAfter(s[0].id, slots - 2);
    IncrementIsAfter(s[0].id, slots - 1);
    AfterIsSame(s[0].id, slots);
    DecrementUndoesIncrement(RecordIdAfter(s[0].id, slots - 1));
  }

  /** In the slot behind the latest element nothing is found that continues it. */
  lemma NothingBehind(mem: seq<byte>, pid: u16, p: Partition, latest: Elem, id: u16)
    requires NoNext(mem, pid, p, latest) && !IsDynamic(pid) && id == IncrementRecordId(latest.id)
    requires |latest.data| < 0x1_0000 && End(pid, p.firstElementAddress, latest) != p.firstElementAddress
    requires End(pid, p.firstElementAddress, latest) + HeaderLen(pid) + p.metadata.firstElementLen <= PartEnd(p) <= |mem|
    ensures ExpectHeader(mem, pid, p, End(pid, p.firstElementAddress, latest), id).ret == NotFound
  {
    hide DeserializeHeader, ReadFirst, HeaderLen, End, IncrementRecordId;
  }

  lemma LookupFromStart(mem: seq<byte>, pid: u16, p: Partition, e: Elem)
    requires e.address == p.firstElementAddress < p.metadata.lastElementAddress && |e.data| < 0x1_0000
    ensures PreviousHeader(mem, pid, p, e.address, e.id, |e.data|)
         == ExpectHeader(mem, pid, p, p.metadata.lastElementAddress, DecrementRecordId(e.id))
  {
    hide ReadHeader, ExpectHeader, HeaderLen, DecrementRecordId;
  }

  /** Before the oldest element nothing is found, as long as the lap is not full again. */
  lemma PeriodOldestIsLast(mem: seq<byte>, pid: u16, p: Partition, log: Log, n: nat)
    requires LogInv(mem, pid, p, log) && RingInv(pid, p, log, n)
    requires Slots(pid, p) % RECORD_IDS == 0 && n > Slots(pid, p) && !ComesRound(Slots(pid, p), n)
    ensures Reachable(log) != [] && |Reachable(log)[0].data| < 0x1_0000
    ensures var e := Reachable(log)[0]; IteratorPrevious(mem, pid, p, At(pid, e)) == Outcome(NotFound, p, At(pid, e), [])
  {
    PeriodShape(mem, pid, p, log, n);
    BehindLatest(mem, pid, p, log, n);
    LatestEnds(mem, pid, p, log);
    OldestFollowsLatest(mem, pid, p, log, Slots(pid, p));
    LogReadback(mem, pid, p, log);
    StaticLen(mem, pid, p, log);
    LogIsStable(mem, pid, p, log);
    hide LogInv, RingInv, Readback, SlotAddress, Slots, HeaderLen, Position, PreviousHeader, ExpectHeader, End, NoNext, DecrementRecordId,
      IncrementRecordId, Stable;
    var e, latest := All(log)[0], Last(log.chain);
    assert Readback(mem, pid, p, e);
    ReadbackSize(mem, pid, p, e);
    NothingBehind(mem, pid, p, latest, DecrementRecordId(e.id));
    if log.older != [] {
      LookupInSlot(mem, pid, p, e, |log.chain| + 1);
    } else {
      LookupFromStart(mem, pid, p, e);
    }
    StablePrevious(mem, pid, p, e.address, e.id, |e.data|);
    NoWayBack(mem, pid, p, e);
  }

  // ---- the walk that never ends ----

  /** The first element's identifier follows the latest one's. */
  lemma FirstFollowsLatest(mem: seq<byte>, pid: u16, p: Partition, log: Log, n: nat)
    requires LogInv(mem, pid, p, log) && RingInv(pid, p, log, n) && ComesRound(Slots(pid, p), n)
    ensures log.older == [] && |log.chain| == Slots(pid, p)
    ensures DecrementRecordId(log.chain[0].id) == Last(log.chain).id
  {
    hide LogInv, RecordIdAfter, IncrementRecordId, DecrementRecordId, WellFormed, SlotAddress, Slots, InSlots;
    var s := All(log);
    ChainOfLog(mem, pid, p, log);
    LogConsecutive(mem, pid, p, log);
    PositionAdvances(n, Slots(pid, p));
    hide Position;
    assert s == log.chain;
    HasRecordId(s[0]);
    IdsAlong(s, |s| - 1);
    IncrementIsAfter(s[0].id, |s| - 1);
    AfterIsSame(s[0].id, |s|);
    HasRecordId(Last(s));
    DecrementUndoesIncrement(Last(s).id);
  }

  /** Where the lookup finds an element with the identifier looked for, the iterator moves onto it. */
  lemma PreviousFinds(mem: seq<byte>, pid: u16, p: Partition, a: Elem, b: Elem)
    requires Readback(mem, pid, p, a) && Readback(mem, pid, p, b) && p.hasFirstElement && !IsDynamic(pid)
    requires |a.data| == p.metadata.firstElementLen && a.id == DecrementRecordId(b.id) && |b.data| < 0x1_0000
    requires PreviousHeader(mem, pid, p, b.address, b.id, |b.data|) == ExpectHeader(mem, pid, p, a.address, DecrementRecordId(b.id))
    ensures IteratorPrevious(mem, pid, p, At(pid, b)) == Outcome(Success, p, At(pid, a), [])
  {
    hide PreviousHeader, ReadHeader, CheckValidity, HeaderLen, Holds, DecrementRecordId;
    ValidAt(mem, pid, p, b);
    ApplyNothing(mem);
    assert a.address + HeaderLen(pid) + |a.data| <= PartEnd(p);
  }

  /** From the first element the lookup leads to the latest one. */
  lemma PeriodCycles(mem: seq<byte>, pid: u16, p: Partition, log: Log, n: nat)
    requires LogInv(mem, pid, p, log) && RingInv(pid, p, log, n) && ComesRound(Slots(pid, p), n)
    ensures Reachable(log) == log.chain && |log.chain| == Slots(pid, p)
    ensures |log.chain[0].data| < 0x1_0000 && |Last(log.chain).data| < 0x1_0000
    ensures IteratorPrevious(mem, pid, p, At(pid, log.chain[0])) == Outcome(Success, p, At(pid, Last(log.chain)), [])
  {
    var a, b := Last(log.chain), log.chain[0];
    FirstFollowsLatest(mem, pid, p, log, n);
    ReachableCount(pid, p, log, n);
    ChainOfLog(mem, pid, p, log);
    LogReadback(mem, pid, p, log);
    StaticLen(mem, pid, p, log);
    FullLap(pid, p, log, n);
    assert |a.data| == p.metadata.firstElementLen && Readback(mem, pid, p, a) && Readback(mem, pid, p, b);
    hide *;
    ReadbackSize(mem, pid, p, a);
    ReadbackSize(mem, pid, p, b);
    LookupFromStart(mem, pid, p, b);
    PreviousFinds(mem, pid, p, a, b);
  }

  /** The full lap: its first element at the start, its last one where the metadata leads. */
  lemma FullLap(pid: u16, p: Partition, log: Log, n: nat)
    requires RingInv(pid, p, log, n) && ComesRound(Slots(pid, p), n)
    ensures !IsDynamic(pid) && log.chain[0].address == p.firstElementAddress
    ensures p.firstElementAddress < Last(log.chain).address == p.metadata.lastElementAddress
  {
    hide SlotAddress, Slots, Position, OlderCount;
    assert InSlots(pid, p, log.chain, 0);
    SlotZero(pid, p);
    SlotsGrow(pid, p, 0, Slots(pid, p) - 1);
    SlotOfFirst(pid, p, log.chain, 0);
  }

  /** If the oldest reachable element leads back to the latest one, a walk goes on for ever. */
  lemma {:induction false} CycleWalk(mem: seq<byte>, pid: u16, p: Partition, log: Log, i: nat, m: nat)
    requires LogInv(mem, pid, p, log) && i < |Reachable(log)|
    requires |Reachable(log)[0].data| < 0x1_0000 && |Last(log.chain).data| < 0x1_0000
    requires IteratorPrevious(mem, pid, p, At(pid, Reachable(log)[0])) == Outcome(Success, p, At(pid, Last(log.chain)), [])
    ensures |Reachable(log)[i].data| < 0x1_0000
    ensures |WalkBack(mem, pid, p, At(pid, Reachable(log)[i]), m)| == m
    ensures WalkEnd(mem, pid, p, At(pid, Reachable(log)[i]), m) == Success
    decreases m
  {
    hide LogInv, IteratorRead, IteratorPrevious, At;
    ReadReachable(mem, pid, p, log, i);
    if m > 0 {
      if i > 0 {
        PreviousIsPrevious(mem, pid, p, log, i);
        CycleWalk(mem, pid, p, log, i - 1, m - 1);
      } else {
        LastReachable(mem, pid, p, log);
        CycleWalk(mem, pid, p, log, |Reachable(log)| - 1, m - 1);
      }
    }
  }

  // ---- the walk, in every case ----

  /** What a walk back yields, however many stores have been made: all reachable elements and no more, or a walk without end. */
  lemma WalkInRing(mem: seq<byte>, pid: u16, p: Partition, it: Iterator, log: Log, n: nat, m: nat)
    requires LogInv(mem, pid, p, log) && RingInv(pid, p, log, n)
    ensures var start := IteratorInit(mem, pid, p, it);
      && start.ret == Success && start.part == p && start.writes == []
      && (ComesRound(Slots(pid, p), n) ==>
            |WalkBack(mem, pid, p, start.iter, m)| == m && WalkEnd(mem, pid, p, start.iter, m) == Success)
      && (!ComesRound(Slots(pid, p), n) ==>
            && WalkBack(mem, pid, p, start.iter, m) == Newest(Reachable(log), m)
            && WalkEnd(mem, pid, p, start.iter, m) == if m < |Reachable(log)| then Success else NotFound)
  {
    assert Slots(pid, p) > 0 && n > 0;
    hide *;
    if ComesRound(Slots(pid, p), n) {
      WalkForEver(mem, pid, p, it, log, n, m);
    } else {
      OldestEndsWalk(mem, pid, p, log, n);
      WalkFromLatest(mem, pid, p, it, log, m);
    }
  }

  lemma WalkForEver(mem: seq<byte>, pid: u16, p: Partition, it: Iterator, log: Log, n: nat, m: nat)
    requires LogInv(mem, pid, p, log) && RingInv(pid, p, log, n) && ComesRound(Slots(pid, p), n)
    ensures var start := IteratorInit(mem, pid, p, it);
      && start.ret == Success && start.part == p && start.writes == []
      && |WalkBack(mem, pid, p, start.iter, m)| == m && WalkEnd(mem, pid, p, start.iter, m) == Success
  {
    hide *;
    LastReachable(mem, pid, p, log);
    PeriodCycles(mem, pid, p, log, n);
    InitAtLatest(mem, pid, p, it, log);
    CycleWalk(mem, pid, p, log, |Reachable(log)| - 1, m);
  }

  lemma OldestEndsWalk(mem: seq<byte>, pid: u16, p: Partition, log: Log, n: nat)
    requires LogInv(mem, pid, p, log) && RingInv(pid, p, log, n) && !ComesRound(Slots(pid, p), n)
    ensures Reachable(log) != [] && |Reachable(log)[0].data| < 0x1_0000
    ensures var e := Reachable(log)[0]; IteratorPrevious(mem, pid, p, At(pid, e)) == Outcome(NotFound, p, At(pid, e), [])
  {
    LastReachable(mem, pid, p, log);
    hide *;
    if Slots(pid, p) % RECORD_IDS == 0 && n > Slots(pid, p) {
      PeriodOldestIsLast(mem, pid, p, log, n);
    } else {
      OldestIsLast(mem, pid, p, log, n);
    }
  }

  /** For every `m`, a walk of at most `m` elements finds `m` of them, or all that were stored, or as many as there are slots. */
  ghost predicate WalksExactly(mem: seq<byte>, pid: u16, p: Partition, it: Iterator, slots: nat, n: nat) {
    forall m: nat :: |WalkBack(mem, pid, p, IteratorInit(mem, pid, p, it).iter, m)| == Min(m, Min(n, slots))
  }

  /**
   * A walk back through a static partition finds as many elements as there are slots for, and then ends: in all cases but
   * two slots after an odd number of stores (above two), and a multiple of 65534 slots after more stores than slots.
   */
  lemma RingIsExactIff(mem: seq<byte>, pid: u16, p: Partition, it: Iterator, log: Log, n: nat)
    requires LogInv(mem, pid, p, log) && RingInv(pid, p, log, n)
    ensures WalksExactly(mem, pid, p, it, Slots(pid, p), n) <==> KeepsAll(Slots(pid, p), n)
    ensures KeepsAll(Slots(pid, p), n) ==> |Reachable(log)| == Min(n, Slots(pid, p)) && !ComesRound(Slots(pid, p), n)
  {
    hide *;
    RingHasSlots(pid, p, log, n);
    ReachableCount(pid, p, log, n);
    CountsDecide(Slots(pid, p), n, |Reachable(log)|);
    WalkLengths(mem, pid, p, it, log, n);
    LengthsDecide(mem, pid, p, it, Slots(pid, p), n, ComesRound(Slots(pid, p), n), |Reachable(log)|);
  }

  lemma RingHasSlots(pid: u16, p: Partition, log: Log, n: nat)
    requires RingInv(pid, p, log, n)
    ensures Slots(pid, p) > 0 && n > 0
  {
    hide Slots, SlotAddress, Position;
  }

  /** How many elements walks of any length find. */
  ghost predicate Finds(mem: seq<byte>, pid: u16, p: Partition, it: Iterator, forEver: bool, reachable: nat) {
    forall m: nat :: |WalkBack(mem, pid, p, IteratorInit(mem, pid, p, it).iter, m)| == if forEver then m else Min(m, reachable)
  }

  lemma WalkLengths(mem: seq<byte>, pid: u16, p: Partition, it: Iterator, log: Log, n: nat)
    requires LogInv(mem, pid, p, log) && RingInv(pid, p, log, n) && Slots(pid, p) > 0 && n > 0
    ensures Finds(mem, pid, p, it, ComesRound(Slots(pid, p), n), |Reachable(log)|)
  {
    hide LogInv, RingInv, IteratorInit, WalkBack, WalkEnd, Slots, Reachable, Newest, ComesRound;
    forall m: nat
      ensures |WalkBack(mem, pid, p, IteratorInit(mem, pid, p, it).iter, m)|
           == if ComesRound(Slots(pid, p), n) then m else Min(m, |Reachable(log)|)
    {
      WalkInRing(mem, pid, p, it, log, n, m);
    }
  }

  lemma LengthsDecide(mem: seq<byte>, pid: u16, p: Partition, it: Iterator, slots: nat, n: nat, forEver: bool, reachable: nat)
    requires Finds(mem, pid, p, it, forEver, reachable)
    ensures WalksExactly(mem, pid, p, it, slots, n) <==> !forEver && reachable == Min(n, slots)
  {
    hide WalkBack, IteratorInit;
    var more := Min(n, slots) + reachable + 1;
    assert |WalkBack(mem, pid, p, IteratorInit(mem, pid, p, it).iter, more)| == if forEver then more else Min(more, reachable);
  }

  /** The walk is exact if it ends, after the right number of elements. */
  lemma CountsDecide(slots: nat, n: nat, reachable: nat)
    requires slots > 0 && n > 0
    requires reachable == Min(n, slots) <==>
               !(slots == 2 && n > 2 && n % 2 == 1)
               && !(slots % RECORD_IDS == 0 && n > slots && Position(n, slots) != slots - 1)
    ensures KeepsAll(slots, n) <==> !ComesRound(slots, n) && reachable == Min(n, slots)
  {
    hide Position;
  }
}
