/** Stores under an iterator, in partitions of either kind: what they leave of the element it stands on. */
module FsUnderIterator {
  import opened Bytes
  import opened Words
  import opened Crc16
  import opened Units
  import opened FsTypes
  import opened FsSpec
  import opened FsLog
  import opened FsStore
  import opened FsKeep
  import opened FsWalk
  import opened FsRing
  import opened FsRingWalk
  import opened FsIterator
  import opened FsHistory
  import opened FsStanding
  import opened FsSucceeds
  import opened FsComesRound

  /** What lies behind `e` is taken for its successor, and an element at `x` begins among the bytes erased there. */
  predicate ErasedBehind(mem: seq<byte>, pid: u16, p: Partition, e: Elem, x: nat) {
    !NoNext(mem, pid, p, e) && End(pid, p.firstElementAddress, e) <= x < End(pid, p.firstElementAddress, e) + HeaderLen(pid)
  }

  /** A store that succeeds does not touch the element under the iterator. */
  lemma SuccessIsApart(g: Geometry, mem: seq<byte>, pid: u16, p: Partition, data: seq<byte>, len: u16, log: Log, x: Elem)
    requires CanStore(g, mem, pid, p, data, len) && LogInv(mem, pid, p, log) && x in All(log) && |x.data| < 0x1_0000
    requires StoreElement(g, mem, pid, p, At(pid, x), data, len).ret == Success
    ensures !Touch(pid, p.firstElementAddress, x, StoredElem(pid, p, data, len))
  {
    assert ByteUnits(g);
    var e := StoredElem(pid, p, data, len);
    LogIsPart(mem, pid, p, log);
    AllReadback(mem, pid, p, log, x);
    LatestEnds(mem, pid, p, log);
    hide LogInv, StoreElement, StoredElem, PartInv, CheckConflict, HasRoom, LegalLen, Touch, Readback, TotalSize, All, NoNext, CanStore,
      Registered;
    SucceedsIff(g, mem, pid, p, At(pid, x), data, len, log);
    StoredLen(g, mem, pid, p, data, len);
    FreeIffApart(g, mem, pid, p, x, e);
  }

  lemma StoredLen(g: Geometry, mem: seq<byte>, pid: u16, p: Partition, data: seq<byte>, len: u16)
    requires CanStore(g, mem, pid, p, data, len)
    ensures |StoredElem(pid, p, data, len).data| < 0x1_0000 && TotalSize(g) == |mem| && ByteUnits(g)
  {
    hide Registered, Placement;
  }

  /** Elements that do not touch lie one behind the other. */
  lemma ApartInOrder(pid: u16, start: nat, x: Elem, e: Elem)
    requires !Touch(pid, start, x, e)
    ensures End(pid, start, x) <= e.address || End(pid, start, e) <= x.address
  {
    var m := if x.address < e.address then e.address else x.address;
    EndIsBehind(pid, start, x);
    EndIsBehind(pid, start, e);
    hide End;
    assert !(In(m, x.address, End(pid, start, x)) && In(m, e.address, End(pid, start, e)));
  }

  lemma EndIsBehind(pid: u16, start: nat, x: Elem)
    ensures x.address < End(pid, start, x)
  {
  }

  lemma LogInBounds(mem: seq<byte>, pid: u16, p: Partition, log: Log, x: Elem)
    requires LogInv(mem, pid, p, log) && x in All(log)
    ensures p.firstElementAddress <= x.address && End(pid, p.firstElementAddress, x) <= PartEnd(p) && Registered(mem, pid, p)
    ensures x.address == p.firstElementAddress ==> x == log.chain[0]
    ensures x.address != p.firstElementAddress ==> Lies(mem, pid, p.firstElementAddress, x)
  {
    var i :| 0 <= i < |All(log)| && All(log)[i] == x;
    hide LiesFirst, Lies, NoNext, HeaderLen, End, Succeeds;
    ChainInBounds(mem, pid, p, log.chain);
    if log.older != [] {
      OlderInBounds(mem, pid, p, log.older, log.chain);
    }
    if i < |log.older| {
      LiesBehindStart(mem, pid, p.firstElementAddress, log.older[i]);
    } else if i > |log.older| {
      var j := i - |log.older|;
      assert log.chain[j] == log.chain[1..][j - 1];
      LiesBehindStart(mem, pid, p.firstElementAddress, log.chain[j]);
    }
  }

  lemma LiesBehindStart(mem: seq<byte>, pid: u16, start: nat, x: Elem)
    requires Lies(mem, pid, start, x)
    ensures start < x.address
  {
  }

  /** Unless it begins among bytes that are erased, it keeps every one of its bytes. */
  lemma StoreKeepsBytes(g: Geometry, mem: seq<byte>, pid: u16, p: Partition, data: seq<byte>, len: u16, log: Log, x: Elem)
    requires CanStore(g, mem, pid, p, data, len) && LogInv(mem, pid, p, log) && x in All(log) && |x.data| < 0x1_0000
    requires StoreElement(g, mem, pid, p, At(pid, x), data, len).ret == Success
    requires !ErasedBehind(mem, pid, p, StoredElem(pid, p, data, len), x.address)
    ensures Agree(mem, Apply(mem, StoreElement(g, mem, pid, p, At(pid, x), data, len).writes),
                  x.address, End(pid, p.firstElementAddress, x))
  {
    var e, mem' := StoredElem(pid, p, data, len), Apply(mem, StoreElement(g, mem, pid, p, At(pid, x), data, len).writes);
    assert Reach(mem, pid, p, e) <= x.address || x.address < End(pid, p.firstElementAddress, e);
    hide *;
    LogIsPart(mem, pid, p, log);
    LogInBounds(mem, pid, p, log, x);
    SuccessIsApart(g, mem, pid, p, data, len, log, x);
    ApartInOrder(pid, p.firstElementAddress, x, e);
    StoreChanges(g, mem, pid, p, At(pid, x), data, len, log);
    OutOfReach(mem, mem', pid, p, e.address, Reach(mem, pid, p, e), x.address, End(pid, p.firstElementAddress, x));
  }

  /** An element that keeps its bytes is read as before. */
  lemma KeptIsRead(g: Geometry, mem: seq<byte>, pid: u16, p: Partition, data: seq<byte>, len: u16, log: Log, x: Elem)
    requires CanStore(g, mem, pid, p, data, len) && LogInv(mem, pid, p, log) && x in All(log) && |x.data| < 0x1_0000
    requires StoreElement(g, mem, pid, p, At(pid, x), data, len).ret == Success
    requires Agree(mem, Apply(mem, StoreElement(g, mem, pid, p, At(pid, x), data, len).writes),
                   x.address, End(pid, p.firstElementAddress, x))
    ensures var r := StoreElement(g, mem, pid, p, At(pid, x), data, len);
            IteratorRead(Apply(mem, r.writes), pid, r.part, At(pid, x))
            == ElementRead(Outcome(Success, r.part, At(pid, x), []), x.data, x.id)
  {
    var e, r := StoredElem(pid, p, data, len), StoreElement(g, mem, pid, p, At(pid, x), data, len);
    var mem' := Apply(mem, r.writes);
    var log' := AfterStore(pid, p.firstElementAddress, log, e, Reach(mem, pid, p, e));
    hide *;
    LogIsPart(mem, pid, p, log);
    LogInBounds(mem, pid, p, log, x);
    StoreKeeps(g, mem, pid, p, At(pid, x), data, len, log);
    ChainNotEmpty(pid, p.firstElementAddress, log, e, Reach(mem, pid, p, e));
    PartIsLog(mem', pid, r.part, log');
    if x.address == p.firstElementAddress {
      SuccessIsApart(g, mem, pid, p, data, len, log, x);
      ApartAddress(pid, p.firstElementAddress, x, e);
      ChainStays(mem, pid, p, log, e, Reach(mem, pid, p, e), x);
      ReadInLog(mem', pid, r.part, log', x);
    } else {
      LiesFrame(mem, mem', pid, p.firstElementAddress, x);
      StoreRecord(g, mem, pid, p, At(pid, x), data, len, log);
      SamePlace(pid, p, r.part, e);
      ElemReadback(mem', pid, r.part, x);
      LatestEnds(mem', pid, r.part, log');
      ReadAt(mem', pid, r.part, x);
    }
  }

  lemma ApartAddress(pid: u16, start: nat, x: Elem, e: Elem)
    requires !Touch(pid, start, x, e)
    ensures x.address != e.address
  {
    EndIsBehind(pid, start, x);
    EndIsBehind(pid, start, e);
    hide End;
    assert !(In(x.address, x.address, End(pid, start, x)) && In(x.address, e.address, End(pid, start, e)));
  }

  lemma ChainStays(mem: seq<byte>, pid: u16, p: Partition, log: Log, e: Elem, reach: nat, x: Elem)
    requires LogInv(mem, pid, p, log) && log.chain != [] && x == log.chain[0] && e.address != p.firstElementAddress
    ensures x in All(AfterStore(pid, p.firstElementAddress, log, e, reach))
  {
    hide LogInv, From, End;
    assert (log.chain + [e])[0] == x;
  }

  lemma SamePlace(pid: u16, p: Partition, q: Partition, e: Elem)
    requires RecordOf(pid, p, q, e)
    ensures q.firstElementAddress == p.firstElementAddress && PartEnd(q) == PartEnd(p)
  {
  }

  /** If nothing may follow `e` any more, the header behind it is not the one that did. */
  lemma HeaderHasChanged(mem: seq<byte>, mem': seq<byte>, pid: u16, p: Partition, q: Partition, e: Elem, x: Elem)
    requires !NoNext(mem, pid, p, e) && NoNext(mem', pid, q, e) && SameShape(pid, p, q)
    requires x.address == End(pid, p.firstElementAddress, e)
    ensures !Agree(mem, mem', x.address, End(pid, p.firstElementAddress, x))
  {
    hide NoNext;
    if Agree(mem, mem', x.address, End(pid, p.firstElementAddress, x)) {
      HeaderAgrees(mem, mem', pid, p.firstElementAddress, x);
      NoNextFrame(mem', mem, pid, q, p, e);
    }
  }

  lemma HeaderAgrees(mem: seq<byte>, mem': seq<byte>, pid: u16, start: nat, x: Elem)
    requires Agree(mem, mem', x.address, End(pid, start, x))
    ensures Agree(mem', mem, x.address, x.address + HeaderLen(pid))
  {
  }

  /**
   * A store that succeeds under an iterator, in a partition of either kind. The element keeps its bytes and the iterator
   * reads on as before, unless a header in front of the element is erased together with bytes of its own; and if it is the
   * element's own header that is taken for the next one, its bytes do change.
   */
  lemma StoreUnderIterator(g: Geometry, mem: seq<byte>, pid: u16, p: Partition, data: seq<byte>, len: u16, log: Log, x: Elem)
    requires CanStore(g, mem, pid, p, data, len) && LogInv(mem, pid, p, log) && x in All(log) && |x.data| < 0x1_0000
    requires StoreElement(g, mem, pid, p, At(pid, x), data, len).ret == Success
    ensures var r := StoreElement(g, mem, pid, p, At(pid, x), data, len);
            var e, mem' := StoredElem(pid, p, data, len), Apply(mem, r.writes);
            var kept := Agree(mem, mem', x.address, End(pid, p.firstElementAddress, x));
      && r.iter == At(pid, x)
      && (!ErasedBehind(mem, pid, p, e, x.address) ==> kept)
      && (kept ==> IteratorRead(mem', pid, r.part, r.iter) == ElementRead(Outcome(Success, r.part, At(pid, x), []), x.data, x.id))
      && (x.address == End(pid, p.firstElementAddress, e) ==> (kept <==> NoNext(mem, pid, p, e)))
  {
    var e, r := StoredElem(pid, p, data, len), StoreElement(g, mem, pid, p, At(pid, x), data, len);
    var mem' := Apply(mem, r.writes);
    assert !ErasedBehind(mem, pid, p, e, x.address) || !NoNext(mem, pid, p, e);
    hide *;
    FlagStays(g, mem, pid, p, data, len, log, x);
    if !ErasedBehind(mem, pid, p, e, x.address) {
      StoreKeepsBytes(g, mem, pid, p, data, len, log, x);
    }
    if Agree(mem, mem', x.address, End(pid, p.firstElementAddress, x)) {
      KeptIsRead(g, mem, pid, p, data, len, log, x);
    }
    if x.address == End(pid, p.firstElementAddress, e) && !NoNext(mem, pid, p, e) {
      LostBehind(g, mem, pid, p, data, len, log, x);
    }
  }

  lemma LostBehind(g: Geometry, mem: seq<byte>, pid: u16, p: Partition, data: seq<byte>, len: u16, log: Log, x: Elem)
    requires CanStore(g, mem, pid, p, data, len) && LogInv(mem, pid, p, log) && x in All(log)
    requires |x.data| < 0x1_0000 && StoreElement(g, mem, pid, p, At(pid, x), data, len).ret == Success
    requires x.address == End(pid, p.firstElementAddress, StoredElem(pid, p, data, len))
    requires !NoNext(mem, pid, p, StoredElem(pid, p, data, len))
    ensures !Agree(mem, Apply(mem, StoreElement(g, mem, pid, p, At(pid, x), data, len).writes),
                   x.address, End(pid, p.firstElementAddress, x))
  {
    var e, r := StoredElem(pid, p, data, len), StoreElement(g, mem, pid, p, At(pid, x), data, len);
    var mem' := Apply(mem, r.writes);
    var log' := AfterStore(pid, p.firstElementAddress, log, e, Reach(mem, pid, p, e));
    hide *;
    LogIsPart(mem, pid, p, log);
    StoreKeeps(g, mem, pid, p, At(pid, x), data, len, log);
    ChainNotEmpty(pid, p.firstElementAddress, log, e, Reach(mem, pid, p, e));
    PartIsLog(mem', pid, r.part, log');
    LatestEnds(mem', pid, r.part, log');
    StoreRecord(g, mem, pid, p, At(pid, x), data, len, log);
    ShapeOfRecord(pid, p, r.part, e);
    HeaderHasChanged(mem, mem', pid, p, r.part, e, x);
  }

  lemma ShapeOfRecord(pid: u16, p: Partition, q: Partition, e: Elem)
    requires RecordOf(pid, p, q, e)
    ensures SameShape(pid, p, q)
  {
  }
}
