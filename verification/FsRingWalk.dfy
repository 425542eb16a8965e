/** Walking back through a static partition: what is found, and when it is everything it should be. */
module FsRingWalk {
  import opened Bytes
  import opened Words
  import opened Units
  import opened FsTypes
  import opened FsSpec
  import opened FsLog
  import opened FsStore
  import opened FsWalk
  import opened FsRing

  /** The lookup finds an element, but not the one looked for. */
  lemma ExpectStranger(mem: seq<byte>, pid: u16, p: Partition, a: Elem, id: u16)
    requires Readback(mem, pid, p, a) && a.id != id
    ensures ExpectHeader(mem, pid, p, a.address, id) == StepRead(NotFound, p, a.address, NO_HEADER, [])
  {
    hide ReadHeader, Holds, HeaderLen;
  }

  /** From the element in slot `j > 0` the lookup goes to slot `j - 1`. */
  lemma LookupInSlot(mem: seq<byte>, pid: u16, p: Partition, e: Elem, j: nat)
    requires Readback(mem, pid, p, e) && !IsDynamic(pid) && j > 0 && e.address == SlotAddress(pid, p, j)
    requires |e.data| == p.metadata.firstElementLen
    ensures var r := PreviousHeader(mem, pid, p, e.address, e.id, |e.data|);
            var x := ExpectHeader(mem, pid, p, SlotAddress(pid, p, j - 1), DecrementRecordId(e.id));
            r.ret == x.ret && r.part == x.part && r.writes == x.writes
  {
    hide ReadHeader, Holds, HeaderLen, ExpectHeader, DecrementRecordId, ElemHeader, Kept;
    assert j * SlotSize(pid, p) == (j - 1) * SlotSize(pid, p) + SlotSize(pid, p);
    if j > 1 {
      MulMonotone(1, j - 1, SlotSize(pid, p));
    }
    ApplyNothing(mem);
    var x := ExpectHeader(mem, pid, p, SlotAddress(pid, p, j - 1), DecrementRecordId(e.id));
    assert [] + x.writes == x.writes;
  }

  /** Where the lookup finds nothing, the iterator stays. */
  lemma NoWayBack(mem: seq<byte>, pid: u16, p: Partition, e: Elem)
    requires Readback(mem, pid, p, e) && p.hasFirstElement
    requires var r := PreviousHeader(mem, pid, p, e.address, e.id, |e.data|);
             r.ret == NotFound && r.part == p && r.writes == []
    ensures IteratorPrevious(mem, pid, p, At(pid, e)) == Outcome(NotFound, p, At(pid, e), [])
  {
    hide PreviousHeader, ReadHeader, Holds, CheckValidity, HeaderLen, NeighbourLen;
    ValidAt(mem, pid, p, e);
    ApplyNothing(mem);
  }

  /** The oldest reachable element starts a run of `slots` identifiers only if it is a full ring. */
  lemma OldestIsNoSuccessor(mem: seq<byte>, pid: u16, p: Partition, log: Log, i: nat)
    requires LogInv(mem, pid, p, log) && i < |All(log)| && (|All(log)| - i) % RECORD_IDS != 0
    ensures Last(log.chain).id != DecrementRecordId(All(log)[i].id)
  {
    hide LogInv, RecordIdAfter, IncrementRecordId, DecrementRecordId, WellFormed;
    var s := All(log);
    ChainOfLog(mem, pid, p, log);
    LogConsecutive(mem, pid, p, log);
    var rest := s[i..];
    assert Consecutive(rest);
    HasRecordId(s[i]);
    IdsAlong(rest, |rest| - 1);
    assert Last(rest) == Last(log.chain);
    IncrementIsAfter(s[i].id, |rest| - 1);
    AfterIsSame(s[i].id, |rest|);
    DecrementUndoesIncrement(s[i].id);
  }

  lemma HasRecordId(e: Elem)
    requires WellFormed(e)
    ensures IsRecordId(e.id)
  {
  }

  lemma ChainOfLog(mem: seq<byte>, pid: u16, p: Partition, log: Log)
    requires LogInv(mem, pid, p, log)
    ensures log.chain != [] && p.hasFirstElement
  {
    hide LiesFirst, AllLie, Linked, EndsLap, OlderInv, Registered;
  }

  /** Everything a walk needs to know about the oldest reachable element of a ring. */
  lemma OldestIsLast(mem: seq<byte>, pid: u16, p: Partition, log: Log, n: nat)
    requires LogInv(mem, pid, p, log) && RingInv(pid, p, log, n)
    requires Slots(pid, p) % RECORD_IDS != 0 || n <= Slots(pid, p)
    ensures |Reachable(log)[0].data| < 0x1_0000
    ensures var e := Reachable(log)[0];
            IteratorPrevious(mem, pid, p, At(pid, e)) == Outcome(NotFound, p, At(pid, e), [])
  {
    hide LogInv, Readback, SlotAddress, Slots, HeaderLen, InSlots, Position;
    var e := Reachable(log)[0];
    ChainOfLog(mem, pid, p, log);
    LogReadback(mem, pid, p, log);
    ReadbackSize(mem, pid, p, e);
    if log.linked {
      OldestInOlder(mem, pid, p, log, n);
    } else {
      OldestInChain(mem, pid, p, log, n);
    }
    NoWayBack(mem, pid, p, e);
  }

  /** The oldest element of the previous lap, and the latest one, sit in neighbouring slots. */
  lemma OldestBehindLatest(mem: seq<byte>, pid: u16, p: Partition, log: Log, n: nat)
    requires RingInv(pid, p, log, n) && log.linked
    requires Slots(pid, p) % RECORD_IDS != 0 || n <= Slots(pid, p)
    ensures !IsDynamic(pid) && log.older != [] && log.chain != []
    ensures log.older[0].address == SlotAddress(pid, p, |log.chain|)
    ensures Last(log.chain).address == SlotAddress(pid, p, |log.chain| - 1)
    ensures All(log) != [] && All(log)[0] == log.older[0] && (|All(log)| - 0) % RECORD_IDS != 0
  {
    hide SlotAddress, Slots, Position;
    assert InSlots(pid, p, log.older, |log.chain|);
    hide OlderCount;
  }

  /** The oldest one belongs to the previous lap: before it comes the latest one. */
  lemma OldestInOlder(mem: seq<byte>, pid: u16, p: Partition, log: Log, n: nat)
    requires LogInv(mem, pid, p, log) && RingInv(pid, p, log, n) && log.linked
    requires Slots(pid, p) % RECORD_IDS != 0 || n <= Slots(pid, p)
    ensures log.older != []
    ensures |log.older[0].data| < 0x1_0000
    ensures var e := log.older[0];
            var r := PreviousHeader(mem, pid, p, e.address, e.id, |e.data|);
            r.ret == NotFound && r.part == p && r.writes == []
  {
    hide *;
    OldestBehindLatest(mem, pid, p, log, n);
    LogReadback(mem, pid, p, log);
    var e, latest := log.older[0], log.chain[|log.chain| - 1];
    ReadbackSize(mem, pid, p, e);
    StaticLen(mem, pid, p, log);
    OfLen(log.older, p.metadata.firstElementLen);
    LookupInSlot(mem, pid, p, e, |log.chain|);
    OldestIsNoSuccessor(mem, pid, p, log, 0);
    LastIs(log.chain);
    ExpectStranger(mem, pid, p, latest, DecrementRecordId(e.id));
  }

  lemma LastIs(s: seq<Elem>)
    requires s != []
    ensures Last(s) == s[|s| - 1]
  {
  }

  lemma OfLen(s: seq<Elem>, n: nat)
    requires AllOfLen(s, n)
    ensures s != [] ==> |s[0].data| == n
  {
  }

  lemma StaticLen(mem: seq<byte>, pid: u16, p: Partition, log: Log)
    requires LogInv(mem, pid, p, log) && !IsDynamic(pid)
    ensures AllOfLen(log.older, p.metadata.firstElementLen) && AllOfLen(log.chain, p.metadata.firstElementLen)
  {
    hide ChainInv, OlderInv, Registered, AllOfLen;
  }

  /** The oldest one is at the partition start: the metadata leads nowhere, or to the latest one. */
  lemma OldestInChain(mem: seq<byte>, pid: u16, p: Partition, log: Log, n: nat)
    requires LogInv(mem, pid, p, log) && RingInv(pid, p, log, n) && !log.linked
    requires Slots(pid, p) % RECORD_IDS != 0 || n <= Slots(pid, p)
    ensures |log.chain[0].data| < 0x1_0000
    ensures var e := log.chain[0];
            var r := PreviousHeader(mem, pid, p, e.address, e.id, |e.data|);
            r.ret == NotFound && r.part == p && r.writes == []
  {
    hide LogInv, Readback, SlotAddress, Slots, HeaderLen, Position;
    var slots, e := Slots(pid, p), log.chain[0];
    LogReadback(mem, pid, p, log);
    ReadbackSize(mem, pid, p, e);
    SlotZero(pid, p);
    assert e.address == p.firstElementAddress;
    if slots > 2 && n > slots {
      assert log.older == [] && |log.chain| == slots;
      assert Last(log.chain).address == SlotAddress(pid, p, slots - 1) == p.metadata.lastElementAddress;
      SlotsGrow(pid, p, 0, slots - 1);
      assert All(log)[0] == e;
      hide InSlots, RingInv;
      OldestIsNoSuccessor(mem, pid, p, log, 0);
      ExpectStranger(mem, pid, p, Last(log.chain), DecrementRecordId(e.id));
    }
    hide ExpectHeader, DecrementRecordId;
  }

  // ---- the walk as a whole ----

  /** If nothing is found before the oldest reachable element, a walk of any length finds all reachable ones. */
  lemma {:induction false} WalkFindsAll(mem: seq<byte>, pid: u16, p: Partition, log: Log, i: nat, m: nat)
    requires LogInv(mem, pid, p, log) && i < |Reachable(log)|
    requires |Reachable(log)[0].data| < 0x1_0000
    requires IteratorPrevious(mem, pid, p, At(pid, Reachable(log)[0])).ret != Success
    ensures |Reachable(log)[i].data| < 0x1_0000
    ensures WalkBack(mem, pid, p, At(pid, Reachable(log)[i]), m) == Newest(Reachable(log)[..i + 1], m)
    decreases m
  {
    hide *;
    ReadReachable(mem, pid, p, log, i);
    NewestStep(Reachable(log), i, m);
    if m == 0 {
      NoWalk(mem, pid, p, At(pid, Reachable(log)[i]));
    } else {
      WalkStep(mem, pid, p, log, i, m);
      if i > 0 {
        PreviousIsPrevious(mem, pid, p, log, i);
        WalkFindsAll(mem, pid, p, log, i - 1, m - 1);
      } else {
        NewestStep(Reachable(log), 0, m - 1);
      }
    }
  }

  /** Such a walk ends with the oldest reachable element: there is nothing before it. */
  lemma {:induction false} WalkEnds(mem: seq<byte>, pid: u16, p: Partition, log: Log, i: nat, m: nat)
    requires LogInv(mem, pid, p, log) && i < |Reachable(log)|
    requires |Reachable(log)[0].data| < 0x1_0000
    requires IteratorPrevious(mem, pid, p, At(pid, Reachable(log)[0])).ret == NotFound
    ensures |Reachable(log)[i].data| < 0x1_0000
    ensures WalkEnd(mem, pid, p, At(pid, Reachable(log)[i]), m) == if m <= i then Success else NotFound
    decreases m
  {
    hide LogInv, IteratorRead, IteratorPrevious, At, Reachable;
    ReadReachable(mem, pid, p, log, i);
    if m > 0 && i > 0 {
      PreviousIsPrevious(mem, pid, p, log, i);
      WalkEnds(mem, pid, p, log, i - 1, m - 1);
    }
  }

  lemma WalkFromLatest(mem: seq<byte>, pid: u16, p: Partition, it: Iterator, log: Log, m: nat)
    requires LogInv(mem, pid, p, log)
    requires |Reachable(log)[0].data| < 0x1_0000
    requires IteratorPrevious(mem, pid, p, At(pid, Reachable(log)[0])).ret == NotFound
    ensures var start := IteratorInit(mem, pid, p, it);
      && start.ret == Success && start.part == p && start.writes == []
      && WalkBack(mem, pid, p, start.iter, m) == Newest(Reachable(log), m)
      && WalkEnd(mem, pid, p, start.iter, m) == if m < |Reachable(log)| then Success else NotFound
  {
    hide LogInv, IteratorInit, IteratorPrevious, At, WalkBack, WalkEnd;
    InitAtLatest(mem, pid, p, it, log);
    LastReachable(mem, pid, p, log);
    WalkFindsAll(mem, pid, p, log, |Reachable(log)| - 1, m);
    WalkEnds(mem, pid, p, log, |Reachable(log)| - 1, m);
  }

  lemma LastReachable(mem: seq<byte>, pid: u16, p: Partition, log: Log)
    requires LogInv(mem, pid, p, log)
    ensures var s := Reachable(log); log.chain != [] && s != [] && s[|s| - 1] == Last(log.chain) && s[..|s| - 1 + 1] == s
  {
    ChainOfLog(mem, pid, p, log);
    hide LogInv;
  }

  function Min(a: nat, b: nat): nat { if a < b then a else b }

  lemma LatestEnds(mem: seq<byte>, pid: u16, p: Partition, log: Log)
    requires LogInv(mem, pid, p, log)
    ensures log.chain != [] && p.hasFirstElement && |Last(log.chain).data| < 0x1_0000
    ensures NoNext(mem, pid, p, Last(log.chain))
    ensures METADATA_SIZE <= p.metadata.partitionSize && PartEnd(p) <= |mem|
  {
    ChainInBounds(mem, pid, p, log.chain);
    hide LiesFirst, AllLie, Linked, OlderInv, NoNext, HeaderLen;
  }
}
