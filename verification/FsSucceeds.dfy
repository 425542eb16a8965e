/** When a store succeeds: exactly if its length is legal, it fits, the bytes behind it can be read, and no iterator is in its way. */
module FsSucceeds {
  import opened Bytes
  import opened Words
  import opened Crc16
  import opened Units
  import opened FsTypes
  import opened FsSpec
  import opened FsLog
  import opened FsStore
  import opened FsKeep
  import opened FsWalk
  import opened FsRing
  import opened FsRingWalk
  import opened FsIterator
  import opened FsStanding

  /** A static partition takes its own element length only, or 0 for it. */
  predicate LegalLen(pid: u16, p: Partition, len: u16) {
    IsDynamic(pid) || len == 0 || len == p.metadata.firstElementLen
  }

  /** The element fits into the partition, and as many bytes as a header has follow it in storage. */
  predicate HasRoom(mem: seq<byte>, pid: u16, p: Partition, e: Elem) {
    End(pid, p.firstElementAddress, e) <= PartEnd(p) && Readable(mem, pid, p.firstElementAddress, e)
  }

  /** With bytes to read behind an element, looking for the one behind it finds it or finds nothing. */
  lemma NextIsFoundOrNot(mem: seq<byte>, pid: u16, p: Partition, e: Elem)
    requires Registered(mem, pid, p) && |e.data| < 0x1_0000 && p.firstElementAddress <= e.address
    requires Readable(mem, pid, p.firstElementAddress, e)
    ensures NextHeader(mem, pid, p, e.address, e.id, |e.data|).ret in {Success, NotFound}
  {
    FirstIsFoundOrNot(mem, pid, p);
    hide ReadFirst, DeserializeHeader, AllFit, IncrementRecordId, SameButMetadata;
    ApplyNothing(mem);
  }

  lemma FirstIsFoundOrNot(mem: seq<byte>, pid: u16, p: Partition)
    requires Registered(mem, pid, p)
    ensures ReadFirst(mem, pid, p).ret in {Success, NotFound}
  {
    RoomForCopies(mem, pid, p);
    hide Judge, HeaderLen, SwapAddress;
  }

  /** What the checks in front of a store let pass. */
  lemma PreparedIff(g: Geometry, mem: seq<byte>, pid: u16, p: Partition, it: Iterator, n: u16, e: Elem)
    requires Regular(g) && TotalSize(g) == |mem| && Registered(mem, pid, p) && Stable(mem, pid, p)
    requires |e.data| == n && e == NewElem(Placement(pid, p, n), e.data) && p.firstElementAddress <= e.address
    ensures PrepareStore(g, mem, pid, p, it, n).Ready? <==>
              HasRoom(mem, pid, p, e) && CheckConflict(g, mem, pid, p, it, e.address, n).ret == Success
  {
    hide Registered, Regular, TotalSize, NextHeader, CheckConflict, ClearNext, Stable, AllFit, SameButMetadata, HeaderLen,
      FullHeaderLen;
    var place := Placement(pid, p, n);
    StableChecks(g, mem, pid, p, it, place.address, n);
    NextIsReadable(mem, pid, p, place.address, place.recordId, n);
    ApplyNothing(mem);
    hide Placement;
    if Readable(mem, pid, p.firstElementAddress, e) {
      NextIsFoundOrNot(mem, pid, p, e);
    }
  }

  /** And what they answer otherwise. */
  lemma PreparedAnswers(g: Geometry, mem: seq<byte>, pid: u16, p: Partition, it: Iterator, n: u16, e: Elem)
    requires Regular(g) && TotalSize(g) == |mem| && Registered(mem, pid, p) && Stable(mem, pid, p)
    requires |e.data| == n && e == NewElem(Placement(pid, p, n), e.data) && p.firstElementAddress <= e.address
    requires PrepareStore(g, mem, pid, p, it, n).Refused?
    ensures PrepareStore(g, mem, pid, p, it, n).outcome.ret
         == if End(pid, p.firstElementAddress, e) > PartEnd(p) then NoMem else Internal
  {
    hide Registered, Regular, TotalSize, NextHeader, CheckConflict, ClearNext, Stable, AllFit, SameButMetadata, HeaderLen,
      FullHeaderLen;
    var place := Placement(pid, p, n);
    StableChecks(g, mem, pid, p, it, place.address, n);
    ApplyNothing(mem);
    hide Placement;
    if Readable(mem, pid, p.firstElementAddress, e) {
      NextIsFoundOrNot(mem, pid, p, e);
    } else {
      NextIsUnreadable(mem, pid, p, e);
    }
  }

  lemma NextIsUnreadable(mem: seq<byte>, pid: u16, p: Partition, e: Elem)
    requires |e.data| < 0x1_0000 && p.firstElementAddress <= e.address && !Readable(mem, pid, p.firstElementAddress, e)
    ensures NextHeader(mem, pid, p, e.address, e.id, |e.data|).ret == Internal
  {
    hide ReadFirst, DeserializeHeader, AllFit, IncrementRecordId, SameButMetadata, Apply;
  }

  /** A store succeeds exactly if its length is legal, its element has room, and the conflict check lets it pass. */
  lemma SucceedsIff(g: Geometry, mem: seq<byte>, pid: u16, p: Partition, it: Iterator, data: seq<byte>, len: u16, log: Log)
    requires CanStore(g, mem, pid, p, data, len) && PartInv(mem, pid, p, log)
    ensures var e := StoredElem(pid, p, data, len);
      StoreElement(g, mem, pid, p, it, data, len).ret == Success <==>
        && LegalLen(pid, p, len) && HasRoom(mem, pid, p, e)
        && CheckConflict(g, mem, pid, p, it, e.address, |e.data|).ret == Success
  {
    var n := EffectiveLen(pid, p, len);
    var e := StoredElem(pid, p, data, len);
    assert |e.data| == n;
    PartIsStable(mem, pid, p, log);
    StoredElemContinues(mem, pid, p, data, len, log);
    hide PartInv, PrepareStore, CommitElement, Registered, TotalSize, Placement, AllFit, Stable, CheckConflict, HasRoom;
    PreparedIff(g, mem, pid, p, it, n, e);
  }

  // ---- the conflict ----

  /** The bytes of the two elements have an address in common. */
  ghost predicate Touch(pid: u16, start: nat, a: Elem, b: Elem) {
    exists x :: In(x, a.address, End(pid, start, a)) && In(x, b.address, End(pid, start, b))
  }

  /** An iterator that is not valid is in nobody's way. */
  lemma InvalidIsFree(g: Geometry, mem: seq<byte>, pid: u16, p: Partition, it: Iterator, address: nat, n: u16)
    requires Regular(g) && (!it.valid || !p.hasFirstElement)
    ensures CheckConflict(g, mem, pid, p, it, address, n).ret == Success
    ensures !CheckConflict(g, mem, pid, p, it, address, n).iter.valid
  {
    hide UnitLimits, HeaderLen, ReadHeader;
  }

  /** One that stands on an element is in the way of stores that would touch this element, and of no other. */
  lemma FreeIffApart(g: Geometry, mem: seq<byte>, pid: u16, p: Partition, x: Elem, e: Elem)
    requires ByteUnits(g) && TotalSize(g) == |mem| && PartEnd(p) <= |mem|
    requires Readback(mem, pid, p, x) && p.hasFirstElement && |x.data| < 0x1_0000 && |e.data| < 0x1_0000
    ensures CheckConflict(g, mem, pid, p, At(pid, x), e.address, |e.data|).ret == Success <==>
              !Touch(pid, p.firstElementAddress, x, e)
  {
    var start := p.firstElementAddress;
    ValidAt(mem, pid, p, x);
    assert EndOf(pid, start, x.address, |x.data|) == End(pid, start, x);
    assert EndOf(pid, start, e.address, |e.data|) == End(pid, start, e);
    assert x.address < End(pid, start, x) <= TotalSize(g);
    ByteUnitStart(g, x.address);
    ForbiddenIffTouching(g, mem, pid, p, At(pid, x), e.address, |e.data|);
    hide CheckValidity, CheckConflict, ReadHeader, HeaderLen, TotalSize, Holds, In, End, EndOf, UnitStart, Readback;
    if Touch(pid, start, x, e) {
      var a :| In(a, x.address, End(pid, start, x)) && In(a, e.address, End(pid, start, e));
    }
  }

  /** The iterator is not valid, or it stands on an element that the store would not touch. */
  ghost predicate OutOfTheWay(pid: u16, p: Partition, it: Iterator, log: Log, e: Elem) {
    it.valid && p.hasFirstElement ==>
      exists x :: x in All(log) && StandsOn(pid, it, x) && !Touch(pid, p.firstElementAddress, x, e)
  }

  lemma FreeIffOutOfTheWay(g: Geometry, mem: seq<byte>, pid: u16, p: Partition, it: Iterator, log: Log, e: Elem)
    requires ByteUnits(g) && TotalSize(g) == |mem| && PartInv(mem, pid, p, log) && |e.data| < 0x1_0000
    requires it.valid && p.hasFirstElement ==> OnElement(pid, it, log)
    ensures CheckConflict(g, mem, pid, p, it, e.address, |e.data|).ret == Success <==> OutOfTheWay(pid, p, it, log, e)
  {
    PartIsStable(mem, pid, p, log);
    hide PartInv, CheckConflict, TotalSize, Touch, All, Stable, At;
    if it.valid && p.hasFirstElement {
      PartIsLog(mem, pid, p, log);
      assert PartEnd(p) <= |mem|;
      hide Registered;
      forall x | x in All(log) && StandsOn(pid, it, x)
        ensures CheckConflict(g, mem, pid, p, it, e.address, |e.data|).ret == Success <==> !Touch(pid, p.firstElementAddress, x, e)
      {
        AllReadback(mem, pid, p, log, x);
        hide Readback;
        FreeIffApart(g, mem, pid, p, x, e);
      }
    } else {
      InvalidIsFree(g, mem, pid, p, it, e.address, |e.data|);
    }
  }

  /**
   * A store succeeds exactly if its length is legal, its element fits into the partition, as many bytes as a header has
   * follow it in storage, and no valid iterator stands on an element that it would touch.
   */
  lemma StoreSucceedsIff(g: Geometry, mem: seq<byte>, pid: u16, p: Partition, it: Iterator, data: seq<byte>, len: u16, log: Log)
    requires CanStore(g, mem, pid, p, data, len) && PartInv(mem, pid, p, log)
    requires it.valid && p.hasFirstElement ==> OnElement(pid, it, log)
    ensures var e := StoredElem(pid, p, data, len);
      StoreElement(g, mem, pid, p, it, data, len).ret == Success <==>
        LegalLen(pid, p, len) && HasRoom(mem, pid, p, e) && OutOfTheWay(pid, p, it, log, e)
  {
    var e := StoredElem(pid, p, data, len);
    hide PartInv, StoreElement, CheckConflict, StoredElem, HasRoom, OutOfTheWay, OnElement, TotalSize, Registered, LegalLen;
    StoredElemContinues(mem, pid, p, data, len, log);
    SucceedsIff(g, mem, pid, p, it, data, len, log);
    FreeIffOutOfTheWay(g, mem, pid, p, it, log, e);
  }

  /** The answer to a store that does not succeed: what is wrong first. */
  lemma StoreAnswers(g: Geometry, mem: seq<byte>, pid: u16, p: Partition, it: Iterator, data: seq<byte>, len: u16, log: Log)
    requires CanStore(g, mem, pid, p, data, len) && PartInv(mem, pid, p, log)
    requires it.valid && p.hasFirstElement ==> OnElement(pid, it, log)
    ensures var e := StoredElem(pid, p, data, len);
      StoreElement(g, mem, pid, p, it, data, len).ret
      == if !LegalLen(pid, p, len) then InvalidParam
         else if End(pid, p.firstElementAddress, e) > PartEnd(p) then NoMem
         else if Readable(mem, pid, p.firstElementAddress, e) && OutOfTheWay(pid, p, it, log, e) then Success
         else Internal
  {
    StoreSucceedsIff(g, mem, pid, p, it, data, len, log);
    var n := EffectiveLen(pid, p, len);
    var e := StoredElem(pid, p, data, len);
    assert |e.data| == n;
    PartIsStable(mem, pid, p, log);
    StoredElemContinues(mem, pid, p, data, len, log);
    hide PartInv, PrepareStore, CommitElement, Registered, TotalSize, Placement, AllFit, Stable, CheckConflict, OutOfTheWay,
      OnElement, Readable, End, PartEnd;
    if PrepareStore(g, mem, pid, p, it, n).Refused? {
      PreparedAnswers(g, mem, pid, p, it, n, e);
    }
  }

  /** A store whose element would end too near the end of storage is refused, whatever the room in its partition. */
  lemma RefusedAtEnd(g: Geometry, mem: seq<byte>, pid: u16, p: Partition, it: Iterator, data: seq<byte>, len: u16, log: Log)
    requires CanStore(g, mem, pid, p, data, len) && PartInv(mem, pid, p, log)
    requires End(pid, p.firstElementAddress, StoredElem(pid, p, data, len)) + HeaderLen(pid) > |mem|
    ensures var r := StoreElement(g, mem, pid, p, it, data, len);
            r.ret != Success && r.writes == [] && r.part == p
  {
    var e := StoredElem(pid, p, data, len);
    assert !Readable(mem, pid, p.firstElementAddress, e);
    hide PartInv, StoreElement, CheckConflict, StoredElem, Readable, Registered, TotalSize;
    SucceedsIff(g, mem, pid, p, it, data, len, log);
    PartIsStable(mem, pid, p, log);
    StoredElemContinues(mem, pid, p, data, len, log);
    StoreUnfolds(g, mem, pid, p, it, data, len);
  }
}
