/** In a static partition a valid iterator stands on one of its elements, whatever is done. */
module FsStanding {
  import opened Bytes
  import opened Words
  import opened Crc16
  import opened Units
  import opened FsTypes
  import opened FsSpec
  import opened FsLog
  import opened FsStore
  import opened FsKeep
  import opened FsWalk
  import opened FsRing
  import opened FsRingWalk
  import opened FsIterator

  /** The iterator stands on `x`. */
  predicate StandsOn(pid: u16, it: Iterator, x: Elem) {
    |x.data| < 0x1_0000 && it == At(pid, x)
  }

  /** The iterator stands on an element of the log. */
  ghost predicate OnElement(pid: u16, it: Iterator, log: Log) {
    exists x :: x in All(log) && StandsOn(pid, it, x)
  }

  /** The partitions for which standing is claimed: static, and the identifiers do not come round with the slots. */
  predicate Steady(pid: u16, p: Partition) {
    !IsDynamic(pid) && Slots(pid, p) % RECORD_IDS != 0
  }

  /** If the flag says valid, and the partition holds something, the iterator stands on an element. */
  ghost predicate Standing(pid: u16, p: Partition, it: Iterator, log: Log) {
    Steady(pid, p) && it.valid && p.hasFirstElement ==> OnElement(pid, it, log)
  }

  lemma StandsOnElement(pid: u16, it: Iterator, log: Log, x: Elem)
    requires x in All(log) && StandsOn(pid, it, x)
    ensures OnElement(pid, it, log)
  {
  }

  // ---- initialising ----

  lemma InitStands(mem: seq<byte>, pid: u16, p: Partition, it: Iterator, log: Log)
    requires LogInv(mem, pid, p, log)
    ensures OnElement(pid, IteratorInit(mem, pid, p, it).iter, log)
  {
    InitAtLatest(mem, pid, p, it, log);
    ChainOfLog(mem, pid, p, log);
    hide LogInv, IteratorInit, At;
    StandsOnElement(pid, IteratorInit(mem, pid, p, it).iter, log, Last(log.chain));
  }

  // ---- stepping forward ----

  /** Behind the last element of a lap the step leads to the first element of the chain, or nowhere. */
  lemma NextFromLapEnd(mem: seq<byte>, pid: u16, p: Partition, log: Log, x: Elem)
    requires LogInv(mem, pid, p, log) && x in All(log) && EndsLap(mem, pid, p, x)
    ensures |x.data| < 0x1_0000 && log.chain != [] && |log.chain[0].data| < 0x1_0000
    ensures var r := IteratorNext(mem, pid, p, At(pid, x));
            r.iter == At(pid, x) || (!IsDynamic(pid) ==> r.iter == At(pid, log.chain[0]))
  {
    LogReadback(mem, pid, p, log);
    ChainOfLog(mem, pid, p, log);
    assert Registered(mem, pid, p);
    hide LogInv, Readback, NextHeader, EndsLap, ReadHeader, CheckValidity, Registered, HeaderLen, Checksum, Apply, AllOfLen, SameButMetadata,
      AllFit;
    ReadbackSize(mem, pid, p, x);
    ReadbackSize(mem, pid, p, log.chain[0]);
    ValidAt(mem, pid, p, x);
    NextGoesToStart(mem, pid, p, x);
    ApplyNothing(mem);
    FirstReads(mem, pid, p, log.chain[0]);
  }

  /** Inside a lap the step leads to the next element. */
  lemma NextInLap(mem: seq<byte>, pid: u16, p: Partition, a: Elem, b: Elem)
    requires Readback(mem, pid, p, a) && Readback(mem, pid, p, b) && Follows(pid, p.firstElementAddress, a, b)
    requires p.firstElementAddress < b.address && p.hasFirstElement
    requires !IsDynamic(pid) ==> |a.data| == p.metadata.firstElementLen && |b.data| == p.metadata.firstElementLen
    ensures |a.data| < 0x1_0000 && |b.data| < 0x1_0000
    ensures IteratorNext(mem, pid, p, At(pid, a)).iter == At(pid, b)
  {
    hide Readback, Follows, LeadsOn, IteratorNext;
    LeadsOnInLap(mem, pid, p, a, b);
    NextMoves(mem, pid, p, a, b);
  }

  /** Both laps of a log are runs of linked elements that end properly. */
  predicate Run(mem: seq<byte>, pid: u16, p: Partition, log: Log, s: seq<Elem>) {
    && Linked(pid, p.firstElementAddress, s)
    && (forall i :: 0 < i < |s| ==> p.firstElementAddress < s[i].address)
    && (forall i :: 0 <= i < |s| ==> s[i] in All(log))
    && (s != [] ==> EndsLap(mem, pid, p, Last(s)))
  }

  lemma LogLaps(mem: seq<byte>, pid: u16, p: Partition, log: Log)
    requires LogInv(mem, pid, p, log)
    ensures Run(mem, pid, p, log, log.chain) && Run(mem, pid, p, log, log.older)
  {
    hide LiesFirst, NoNext, HeaderLen, Succeeds, Registered, EndsLap, Follows, Lies;
    ChainInBounds(mem, pid, p, log.chain);
    forall i | 0 <= i < |log.older| ensures p.firstElementAddress < log.older[i].address {
      assert Lies(mem, pid, p.firstElementAddress, log.older[i]);
      LiesAbove(mem, pid, p.firstElementAddress, log.older[i]);
    }
  }

  lemma LiesAbove(mem: seq<byte>, pid: u16, start: nat, e: Elem)
    requires Lies(mem, pid, start, e)
    ensures start < e.address
  {
  }

  lemma NextInRun(mem: seq<byte>, pid: u16, p: Partition, log: Log, s: seq<Elem>, i: nat)
    requires LogInv(mem, pid, p, log) && Run(mem, pid, p, log, s) && i < |s| && !IsDynamic(pid) && |s[i].data| < 0x1_0000
    ensures OnElement(pid, IteratorNext(mem, pid, p, At(pid, s[i])).iter, log)
  {
    LogReadback(mem, pid, p, log);
    ChainOfLog(mem, pid, p, log);
    hide LogInv, Readback, IteratorNext, EndsLap, At, StandsOn, OnElement, HeaderLen;
    if i + 1 < |s| {
      assert Follows(pid, p.firstElementAddress, s[i], s[i + 1]);
      assert s[i] in All(log) && s[i + 1] in All(log);
      AllReadback(mem, pid, p, log, s[i]);
      AllReadback(mem, pid, p, log, s[i + 1]);
      hide Follows;
      NextInLap(mem, pid, p, s[i], s[i + 1]);
      StandsOnElement(pid, At(pid, s[i + 1]), log, s[i + 1]);
    } else {
      NextFromLapEnd(mem, pid, p, log, s[i]);
      if IteratorNext(mem, pid, p, At(pid, s[i])).iter == At(pid, s[i]) {
        StandsOnElement(pid, At(pid, s[i]), log, s[i]);
      } else {
        StandsOnElement(pid, At(pid, log.chain[0]), log, log.chain[0]);
      }
    }
  }

  lemma NextOfMember(mem: seq<byte>, pid: u16, p: Partition, log: Log, s: seq<Elem>, x: Elem)
    requires LogInv(mem, pid, p, log) && Run(mem, pid, p, log, s) && x in s && !IsDynamic(pid) && |x.data| < 0x1_0000
    ensures OnElement(pid, IteratorNext(mem, pid, p, At(pid, x)).iter, log)
  {
    hide *;
    var i :| 0 <= i < |s| && s[i] == x;
    NextInRun(mem, pid, p, log, s, i);
  }

  /** Wherever the iterator stands, a step forward leaves it on an element. */
  lemma NextStands(mem: seq<byte>, pid: u16, p: Partition, log: Log, x: Elem)
    requires LogInv(mem, pid, p, log) && x in All(log) && !IsDynamic(pid) && |x.data| < 0x1_0000
    ensures OnElement(pid, IteratorNext(mem, pid, p, At(pid, x)).iter, log)
  {
    hide LogInv, Run, OnElement, IteratorNext, At;
    LogLaps(mem, pid, p, log);
    if x in log.chain {
      NextOfMember(mem, pid, p, log, log.chain, x);
    } else {
      NextOfMember(mem, pid, p, log, log.older, x);
    }
  }

  lemma AllReadback(mem: seq<byte>, pid: u16, p: Partition, log: Log, x: Elem)
    requires LogInv(mem, pid, p, log) && x in All(log)
    ensures Readback(mem, pid, p, x)
  {
    LogReadback(mem, pid, p, log);
    hide LogInv, Readback;
  }

  // ---- stepping back ----

  /** With two slots, the element of the second one cannot be reached; no step back leads away from it either. */
  lemma UnreachableStays(mem: seq<byte>, pid: u16, p: Partition, log: Log, n: nat, x: Elem)
    requires LogInv(mem, pid, p, log) && RingInv(pid, p, log, n) && Slots(pid, p) % RECORD_IDS != 0
    requires x in log.older && !log.linked
    ensures |x.data| < 0x1_0000 && IteratorPrevious(mem, pid, p, At(pid, x)).iter == At(pid, x)
  {
    LogConsecutive(mem, pid, p, log);
    ChainOfLog(mem, pid, p, log);
    hide LogInv, RingInv, Readback, SlotAddress, Slots, PreviousHeader, ExpectHeader, DecrementRecordId, IncrementRecordId, HeaderLen;
    AllReadback(mem, pid, p, log, x);
    AllReadback(mem, pid, p, log, log.chain[0]);
    ReadbackSize(mem, pid, p, x);
    LookupInSlot(mem, pid, p, x, 1);
    assert All(log)[0] == x && All(log)[1] == log.chain[0];
    ExpectStranger(mem, pid, p, log.chain[0], DecrementRecordId(x.id));
    NoWayBack(mem, pid, p, x);
  }

  lemma PreviousStands(mem: seq<byte>, pid: u16, p: Partition, log: Log, n: nat, x: Elem)
    requires LogInv(mem, pid, p, log) && RingInv(pid, p, log, n) && Slots(pid, p) % RECORD_IDS != 0
    requires x in All(log) && |x.data| < 0x1_0000
    ensures OnElement(pid, IteratorPrevious(mem, pid, p, At(pid, x)).iter, log)
  {
    hide LogInv, RingInv, Slots, IteratorPrevious, At, StandsOn, OnElement;
    if x in Reachable(log) {
      var j :| 0 <= j < |Reachable(log)| && Reachable(log)[j] == x;
      if j == 0 {
        OldestIsLast(mem, pid, p, log, n);
        StandsOnElement(pid, At(pid, x), log, x);
      } else {
        PreviousIsPrevious(mem, pid, p, log, j);
        StandsOnElement(pid, At(pid, Reachable(log)[j - 1]), log, Reachable(log)[j - 1]);
      }
    } else {
      UnreachableStays(mem, pid, p, log, n, x);
      StandsOnElement(pid, At(pid, x), log, x);
    }
  }

  // ---- storing ----

  /** The check in front of a store decides what becomes of the flag, if the store gets that far. */
  lemma StoreChecks(g: Geometry, mem: seq<byte>, pid: u16, p: Partition, it: Iterator, data: seq<byte>, len: u16)
    requires CanStore(g, mem, pid, p, data, len)
    ensures var r := StoreElement(g, mem, pid, p, it, data, len);
            var c := CheckConflict(g, mem, pid, p, it, StoredElem(pid, p, data, len).address, EffectiveLen(pid, p, len));
      && (r.iter == it || r.iter == c.iter)
      && (r.ret == Success ==> r.iter == c.iter)
  {
    hide CheckConflict, HeaderLen, Placement, NextHeader, Registered, TotalSize, Apply, SameButMetadata, AllFit, CommitBackup,
      StoreWrites, WithHeader, HeadBytes;
  }

  /** Whatever becomes of a store, an iterator that stands on an element keeps its position and its flag. */
  lemma FlagStays(g: Geometry, mem: seq<byte>, pid: u16, p: Partition, data: seq<byte>, len: u16, log: Log, x: Elem)
    requires CanStore(g, mem, pid, p, data, len) && LogInv(mem, pid, p, log) && x in All(log) && |x.data| < 0x1_0000
    ensures StoreElement(g, mem, pid, p, At(pid, x), data, len).iter == At(pid, x)
  {
    var e := StoredElem(pid, p, data, len);
    assert ByteUnits(g);
    hide LogInv, CanStore, StoreElement, Readback, StoredElem, CheckConflict, At;
    StoreChecks(g, mem, pid, p, At(pid, x), data, len);
    AllReadback(mem, pid, p, log, x);
    ChainOfLog(mem, pid, p, log);
  }

  /** A store over which the iterator stands on `x`: the element stays in the log. */
  lemma ElementStays(g: Geometry, mem: seq<byte>, pid: u16, p: Partition, data: seq<byte>, len: u16, log: Log, n: nat, x: Elem)
    requires CanStore(g, mem, pid, p, data, len) && LogInv(mem, pid, p, log) && RingInv(pid, p, log, n)
    requires Slots(pid, p) % RECORD_IDS != 0 && x in All(log) && |x.data| < 0x1_0000
    requires StoreElement(g, mem, pid, p, At(pid, x), data, len).ret == Success
    ensures var e := StoredElem(pid, p, data, len);
            x in All(AfterStore(pid, p.firstElementAddress, log, e, Reach(mem, pid, p, e)))
  {
    hide LogInv, RingInv, CanStore, StoreElement, Slots, AfterStore, Reach, StoredElem, At;
    var i :| 0 <= i < |All(log)| && All(log)[i] == x;
    StoreSparesIterator(g, mem, pid, p, data, len, log, n, i);
  }
}
