/** What the iterator sees: exactly the reachable elements of the log, newest first. */
module FsWalk {
  import opened Bytes
  import opened Words
  import opened Crc16
  import opened Units
  import opened FsTypes
  import opened FsSpec
  import opened FsLog
  import opened FsStore

  /** The iterator standing on `e`. */
  function At(pid: u16, e: Elem): Iterator
    requires |e.data| < 0x1_0000
  {
    Iterator(e.address, |e.data|, Kept(pid, ElemHeader(e)), true)
  }

  /** `e` can be read where it is: its header through the filesystem, its payload behind the header. */
  predicate Readback(mem: seq<byte>, pid: u16, p: Partition, e: Elem) {
    && WellFormed(e)
    && ReadHeader(mem, pid, p, e.address) == HeaderRead(Success, p, Kept(pid, ElemHeader(e)), [])
    && Holds(mem, e.address + FullHeaderLen(pid, p.firstElementAddress, e.address), e.data)
    && End(pid, p.firstElementAddress, e) <= PartEnd(p)
  }

  lemma FirstReadback(mem: seq<byte>, pid: u16, p: Partition, e: Elem)
    requires Registered(mem, pid, p) && LiesFirst(mem, pid, p, e) && End(pid, p.firstElementAddress, e) <= PartEnd(p)
    ensures Readback(mem, pid, p, e)
  {
    ReadFirstElem(mem, pid, p, e);
    HoldsSplit(mem, e.address, FirstBlob(pid, p.metadata, ElemHeader(e)), e.data);
    hide Sealed, FirstBlob, Checksum, ReadFirst;
  }

  lemma ElemReadback(mem: seq<byte>, pid: u16, p: Partition, e: Elem)
    requires Lies(mem, pid, p.firstElementAddress, e) && End(pid, p.firstElementAddress, e) <= PartEnd(p)
    ensures Readback(mem, pid, p, e)
  {
    ReadElem(mem, pid, p, e);
    HoldsSplit(mem, e.address, SerializeHeader(pid, ElemHeader(e)), e.data);
    hide SerializeHeader, Checksum, ReadHeader;
  }

  lemma ChainReadback(mem: seq<byte>, pid: u16, p: Partition, chain: seq<Elem>)
    requires Registered(mem, pid, p) && ChainInv(mem, pid, p, chain)
    ensures forall i :: 0 <= i < |chain| ==> Readback(mem, pid, p, chain[i])
  {
    hide LiesFirst, Lies, Readback, Linked, NoNext, HeaderLen, Succeeds;
    ChainInBounds(mem, pid, p, chain);
    FirstReadback(mem, pid, p, chain[0]);
    forall i | 0 < i < |chain| ensures Readback(mem, pid, p, chain[i]) {
      ElemReadback(mem, pid, p, chain[i]);
    }
  }

  /** Every element of the log can be read back. */
  lemma LogReadback(mem: seq<byte>, pid: u16, p: Partition, log: Log)
    requires LogInv(mem, pid, p, log)
    ensures forall i :: 0 <= i < |log.chain| ==> Readback(mem, pid, p, log.chain[i])
    ensures forall i :: 0 <= i < |log.older| ==> Readback(mem, pid, p, log.older[i])
  {
    hide LiesFirst, Lies, Readback, Linked, NoNext, HeaderLen, Succeeds;
    ChainReadback(mem, pid, p, log.chain);
    if log.older != [] {
      OlderInBounds(mem, pid, p, log.older, log.chain);
      forall i | 0 <= i < |log.older| ensures Readback(mem, pid, p, log.older[i]) {
        ElemReadback(mem, pid, p, log.older[i]);
      }
    }
  }

  lemma ValidAt(mem: seq<byte>, pid: u16, p: Partition, e: Elem)
    requires Readback(mem, pid, p, e) && p.hasFirstElement
    ensures CheckValidity(mem, pid, p, At(pid, e)) == Outcome(Success, p, At(pid, e), [])
  {
    hide ReadHeader, Checksum, Holds;
  }

  /** Initialising the iterator puts it on the latest element. */
  lemma InitAtLatest(mem: seq<byte>, pid: u16, p: Partition, it: Iterator, log: Log)
    requires LogInv(mem, pid, p, log)
    ensures |Last(log.chain).data| < 0x1_0000
    ensures IteratorInit(mem, pid, p, it) == Outcome(Success, p, At(pid, Last(log.chain)), [])
  {
    LogReadback(mem, pid, p, log);
    hide ReadHeader, Checksum, Holds, ChainInv, OlderInv;
  }

  /** Reading the element under the iterator yields its payload and record identifier. */
  lemma ReadAt(mem: seq<byte>, pid: u16, p: Partition, e: Elem)
    requires Readback(mem, pid, p, e) && p.hasFirstElement && PartEnd(p) <= |mem|
    ensures IteratorRead(mem, pid, p, At(pid, e))
         == ElementRead(Outcome(Success, p, At(pid, e), []), e.data, e.id)
  {
    ValidAt(mem, pid, p, e);
    ApplyNothing(mem);
    hide ReadHeader, CheckValidity, Checksum, Apply;
  }

  // ---- one step back ----

  /** The length of the element before `b`, computed from what is stored with `b`. */
  lemma LenBefore(pid: u16, p: Partition, a: Elem, b: Elem)
    requires Succeeds(a, b)
    requires !IsDynamic(pid) ==> |a.data| == p.metadata.firstElementLen
    ensures NeighbourLen(pid, p, |b.data|, Kept(pid, ElemHeader(b)).previousXorCurrent) == |a.data|
  {
    hide Xor16, Checksum;
    Xor16Undo(|a.data|, |b.data|);
  }

  /** The length of the element behind `a`, computed from what is stored with the one behind. */
  lemma LenAfter(pid: u16, p: Partition, a: Elem, b: Elem)
    requires Succeeds(a, b)
    requires !IsDynamic(pid) ==> |b.data| == p.metadata.firstElementLen
    ensures NeighbourLen(pid, p, |a.data|, Kept(pid, ElemHeader(b)).previousXorCurrent) == |b.data|
  {
    hide Xor16, Checksum;
    Xor16Undo(|a.data|, |b.data|);
  }

  lemma ExpectElem(mem: seq<byte>, pid: u16, p: Partition, a: Elem, b: Elem)
    requires Readback(mem, pid, p, a) && Succeeds(a, b)
    ensures ExpectHeader(mem, pid, p, a.address, DecrementRecordId(b.id))
         == StepRead(Success, p, a.address, Kept(pid, ElemHeader(a)), [])
  {
    hide ReadHeader, Checksum, Holds, Xor16;
    DecrementUndoesIncrement(a.id);
  }

  /** From `b` the code finds its way back to `a`. */
  predicate LeadsBack(mem: seq<byte>, pid: u16, p: Partition, a: Elem, b: Elem) {
    && Readback(mem, pid, p, a) && Readback(mem, pid, p, b) && Succeeds(a, b)
    && (!IsDynamic(pid) ==> |a.data| == p.metadata.firstElementLen && |b.data| == p.metadata.firstElementLen)
    && PreviousHeader(mem, pid, p, b.address, b.id, |b.data|)
       == StepRead(Success, p, a.address, Kept(pid, ElemHeader(a)), [])
  }

  /** Within a lap. */
  lemma LeadsBackInLap(mem: seq<byte>, pid: u16, p: Partition, a: Elem, b: Elem)
    requires Readback(mem, pid, p, a) && Readback(mem, pid, p, b) && Follows(pid, p.firstElementAddress, a, b)
    requires a.address == p.firstElementAddress || p.firstElementAddress + FirstLen(pid) <= a.address
    requires !IsDynamic(pid) ==> |a.data| == p.metadata.firstElementLen && |b.data| == p.metadata.firstElementLen
    ensures LeadsBack(mem, pid, p, a, b)
  {
    hide ExpectHeader, Succeeds, NeighbourLen, ElemHeader, Apply, DecrementRecordId, Holds, ReadHeader, Kept, NoNext;
    assert ReadHeader(mem, pid, p, b.address) == HeaderRead(Success, p, Kept(pid, ElemHeader(b)), []);
    ExpectElem(mem, pid, p, a, b);
    LenBefore(pid, p, a, b);
    ApplyNothing(mem);
    assert b.address == a.address + FullHeaderLen(pid, p.firstElementAddress, a.address) + |a.data|;
    hide Readback, HeaderLen;
  }

  /** Across the wrap: from the first element back to the last one of the previous lap. */
  lemma LeadsBackOverWrap(mem: seq<byte>, pid: u16, p: Partition, a: Elem, b: Elem)
    requires Readback(mem, pid, p, a) && Readback(mem, pid, p, b) && Succeeds(a, b)
    requires b.address == p.firstElementAddress < a.address == p.metadata.lastElementAddress
    requires !IsDynamic(pid) ==> |a.data| == p.metadata.firstElementLen && |b.data| == p.metadata.firstElementLen
    ensures LeadsBack(mem, pid, p, a, b)
  {
    hide Readback, ReadHeader, Kept, ElemHeader, HeaderLen, DecrementRecordId, ExpectHeader, Xor16, Holds;
    ReadbackSize(mem, pid, p, b);
    ExpectElem(mem, pid, p, a, b);
  }

  lemma ReadbackSize(mem: seq<byte>, pid: u16, p: Partition, e: Elem)
    requires Readback(mem, pid, p, e)
    ensures |e.data| < 0x1_0000
  {
  }

  /** Where one finds the way back, the iterator moves. */
  lemma PreviousMoves(mem: seq<byte>, pid: u16, p: Partition, a: Elem, b: Elem)
    requires LeadsBack(mem, pid, p, a, b) && p.hasFirstElement
    ensures |a.data| < 0x1_0000 && |b.data| < 0x1_0000
    ensures IteratorPrevious(mem, pid, p, At(pid, b)) == Outcome(Success, p, At(pid, a), [])
  {
    hide PreviousHeader, ReadHeader, Succeeds, CheckValidity, NeighbourLen, Apply, HeaderLen, Checksum, Holds;
    ValidAt(mem, pid, p, b);
    LenBefore(pid, p, a, b);
    ApplyNothing(mem);
    assert a.address + HeaderLen(pid) + |a.data| <= PartEnd(p);
  }

  /** Every reachable element but the oldest leads back to the one stored before it. */
  lemma LogLeadsBack(mem: seq<byte>, pid: u16, p: Partition, log: Log, i: nat)
    requires LogInv(mem, pid, p, log) && 0 < i < |Reachable(log)|
    ensures LeadsBack(mem, pid, p, Reachable(log)[i - 1], Reachable(log)[i])
  {
    hide Readback, LeadsBack, Lies, LiesFirst, NoNext, Registered, Succeeds, EndsLap, AllLie, WellFormed;
    LogReadback(mem, pid, p, log);
    var start, chain, older := p.firstElementAddress, log.chain, log.older;
    var k := if log.linked then |older| else 0;
    var a, b := Reachable(log)[i - 1], Reachable(log)[i];
    ChainInBounds(mem, pid, p, chain);
    if i > k {
      assert a == chain[i - k - 1] && b == chain[i - k];
      if i > k + 1 {
        LinkedGrows(pid, start, chain, 0, i - k - 1);
      }
      LeadsBackInLap(mem, pid, p, a, b);
    } else if i == k {
      OlderInBounds(mem, pid, p, older, chain);
      LeadsBackOverWrap(mem, pid, p, a, b);
    } else {
      OlderInBounds(mem, pid, p, older, chain);
      LeadsBackInLap(mem, pid, p, a, b);
    }
  }

  /** Stepping back from a reachable element yields the reachable element stored before it. */
  lemma PreviousIsPrevious(mem: seq<byte>, pid: u16, p: Partition, log: Log, i: nat)
    requires LogInv(mem, pid, p, log) && 0 < i < |Reachable(log)|
    ensures var s := Reachable(log);
      && |s[i - 1].data| < 0x1_0000 && |s[i].data| < 0x1_0000
      && IteratorPrevious(mem, pid, p, At(pid, s[i])) == Outcome(Success, p, At(pid, s[i - 1]), [])
  {
    assert p.hasFirstElement;
    hide LogInv, LeadsBack, IteratorPrevious;
    LogLeadsBack(mem, pid, p, log, i);
    PreviousMoves(mem, pid, p, Reachable(log)[i - 1], Reachable(log)[i]);
  }

  // ---- one step forward ----

  /** From `a` the code finds its way on to `b`. */
  predicate LeadsOn(mem: seq<byte>, pid: u16, p: Partition, a: Elem, b: Elem) {
    && Readback(mem, pid, p, a) && Readback(mem, pid, p, b) && Succeeds(a, b)
    && (!IsDynamic(pid) ==> |a.data| == p.metadata.firstElementLen && |b.data| == p.metadata.firstElementLen)
    && NextHeader(mem, pid, p, a.address, a.id, |a.data|)
       == StepRead(Success, p, b.address, Kept(pid, ElemHeader(b)), [])
  }

  lemma LeadsOnInLap(mem: seq<byte>, pid: u16, p: Partition, a: Elem, b: Elem)
    requires Readback(mem, pid, p, a) && Readback(mem, pid, p, b) && Follows(pid, p.firstElementAddress, a, b)
    requires p.firstElementAddress < b.address
    requires !IsDynamic(pid) ==> |a.data| == p.metadata.firstElementLen && |b.data| == p.metadata.firstElementLen
    ensures LeadsOn(mem, pid, p, a, b)
  {
    hide NeighbourLen, Apply, Holds, ReadHeader, Xor16, Checksum, IncrementRecordId;
    assert ReadHeader(mem, pid, p, b.address) == HeaderRead(Success, p, Kept(pid, ElemHeader(b)), []);
    LenAfter(pid, p, a, b);
    assert b.address + HeaderLen(pid) + |b.data| <= PartEnd(p);
    hide HeaderLen;
  }

  /** Behind the last element of a lap nothing is found, so the search goes on at the partition start. */
  lemma NextGoesToStart(mem: seq<byte>, pid: u16, p: Partition, a: Elem)
    requires Registered(mem, pid, p) && Readback(mem, pid, p, a) && EndsLap(mem, pid, p, a)
    requires p.firstElementAddress <= a.address
    ensures |a.data| < 0x1_0000
    ensures NextHeader(mem, pid, p, a.address, a.id, |a.data|)
         == (var f := ReadHeader(mem, pid, p, p.firstElementAddress);
             if f.ret != Success then StepRead(f.ret, f.part, p.firstElementAddress, NO_HEADER, f.writes)
             else if f.header.recordId == IncrementRecordId(a.id)
             then StepRead(Success, f.part, p.firstElementAddress, f.header, f.writes)
             else StepRead(NotFound, f.part, p.firstElementAddress, NO_HEADER, f.writes))
  {
    hide ReadFirst, DeserializeHeader, Apply, Holds, HeaderLen, FullHeaderLen, IncrementRecordId;
    ApplyNothing(mem);
  }

  lemma LeadsOnOverWrap(mem: seq<byte>, pid: u16, p: Partition, a: Elem, b: Elem)
    requires Registered(mem, pid, p)
    requires Readback(mem, pid, p, a) && Readback(mem, pid, p, b) && Succeeds(a, b) && EndsLap(mem, pid, p, a)
    requires b.address == p.firstElementAddress <= a.address
    requires !IsDynamic(pid) ==> |a.data| == p.metadata.firstElementLen && |b.data| == p.metadata.firstElementLen
    ensures LeadsOn(mem, pid, p, a, b)
  {
    hide ReadHeader, NextHeader, EndsLap, Xor16, Holds, HeaderLen, Checksum, IncrementRecordId, Registered;
    NextGoesToStart(mem, pid, p, a);
  }

  lemma NextMoves(mem: seq<byte>, pid: u16, p: Partition, a: Elem, b: Elem)
    requires LeadsOn(mem, pid, p, a, b) && p.hasFirstElement
    ensures |a.data| < 0x1_0000 && |b.data| < 0x1_0000
    ensures IteratorNext(mem, pid, p, At(pid, a)) == Outcome(Success, p, At(pid, b), [])
  {
    hide NextHeader, ReadHeader, Succeeds, CheckValidity, NeighbourLen, Apply, HeaderLen, Checksum, Holds;
    ValidAt(mem, pid, p, a);
    LenAfter(pid, p, a, b);
    ApplyNothing(mem);
  }

  lemma LogLeadsOn(mem: seq<byte>, pid: u16, p: Partition, log: Log, i: nat)
    requires LogInv(mem, pid, p, log) && 0 < i < |Reachable(log)|
    ensures LeadsOn(mem, pid, p, Reachable(log)[i - 1], Reachable(log)[i])
  {
    hide Readback, LeadsOn, Lies, LiesFirst, NoNext, Registered, Succeeds, EndsLap, AllLie, WellFormed;
    LogReadback(mem, pid, p, log);
    var start, chain, older := p.firstElementAddress, log.chain, log.older;
    var k := if log.linked then |older| else 0;
    var a, b := Reachable(log)[i - 1], Reachable(log)[i];
    ChainInBounds(mem, pid, p, chain);
    if i > k {
      assert a == chain[i - k - 1] && b == chain[i - k];
      LeadsOnInLap(mem, pid, p, a, b);
    } else if i == k {
      OlderInBounds(mem, pid, p, older, chain);
      LeadsOnOverWrap(mem, pid, p, a, b);
    } else {
      OlderInBounds(mem, pid, p, older, chain);
      LeadsOnInLap(mem, pid, p, a, b);
    }
  }

  /** Stepping forward undoes stepping back, on all reachable elements. */
  lemma NextUndoesPrevious(mem: seq<byte>, pid: u16, p: Partition, log: Log, i: nat)
    requires LogInv(mem, pid, p, log) && 0 < i < |Reachable(log)|
    ensures |Reachable(log)[i].data| < 0x1_0000
    ensures var here := At(pid, Reachable(log)[i]);
            var back := IteratorPrevious(mem, pid, p, here);
      && back.ret == Success && back.part == p && back.writes == []
      && IteratorNext(mem, pid, p, back.iter) == Outcome(Success, p, here, [])
  {
    assert p.hasFirstElement;
    hide LogInv, LeadsOn, IteratorPrevious, IteratorNext;
    PreviousIsPrevious(mem, pid, p, log, i);
    LogLeadsOn(mem, pid, p, log, i);
    NextMoves(mem, pid, p, Reachable(log)[i - 1], Reachable(log)[i]);
  }

  /** From the latest element there is no way on, unless the record identifiers have come round. */
  lemma NothingBehindLatest(mem: seq<byte>, pid: u16, p: Partition, log: Log)
    requires LogInv(mem, pid, p, log)
    ensures |Last(log.chain).data| < 0x1_0000
    ensures log.chain[0].id != IncrementRecordId(Last(log.chain).id) ==>
              IteratorNext(mem, pid, p, At(pid, Last(log.chain)))
              == Outcome(NotFound, p, At(pid, Last(log.chain)), [])
    ensures log.chain[0].id == IncrementRecordId(Last(log.chain).id) ==>
              IteratorNext(mem, pid, p, At(pid, Last(log.chain))).ret == Success
  {
    hide Readback, Lies, LiesFirst, NoNext, Registered, Succeeds, EndsLap, AllLie, WellFormed, NextHeader, CheckValidity,
      ReadHeader, Checksum, Apply;
    LogReadback(mem, pid, p, log);
    var e := Last(log.chain);
    ChainInBounds(mem, pid, p, log.chain);
    ReadbackSize(mem, pid, p, e);
    ValidAt(mem, pid, p, e);
    NextGoesToStart(mem, pid, p, e);
    ApplyNothing(mem);
    FirstReads(mem, pid, p, log.chain[0]);
  }

  lemma FirstReads(mem: seq<byte>, pid: u16, p: Partition, e: Elem)
    requires Readback(mem, pid, p, e) && e.address == p.firstElementAddress
    ensures ReadHeader(mem, pid, p, p.firstElementAddress) == HeaderRead(Success, p, Kept(pid, ElemHeader(e)), [])
  {
    hide ReadHeader;
  }

  // ---- walking back ----

  /** Payload and identifier of the current element, then of those an uninterrupted walk back finds, at most `n` in all. */
  function WalkBack(mem: seq<byte>, pid: u16, p: Partition, it: Iterator, n: nat): seq<(u16, seq<byte>)>
    decreases n
  {
    hide *;
    if n == 0 then []
    else
      var r := IteratorRead(mem, pid, p, it);
      if r.outcome.ret != Success then []
      else
        var b := IteratorPrevious(mem, pid, p, it);
        [(r.recordId, r.data)] + (if b.ret != Success then [] else WalkBack(mem, pid, p, b.iter, n - 1))
  }

  /** How such a walk ends: with the error of the step that found nothing, or with all its `n` steps done. */
  function WalkEnd(mem: seq<byte>, pid: u16, p: Partition, it: Iterator, n: nat): Ret
    decreases n
  {
    hide *;
    if n == 0 then Success
    else
      var r := IteratorRead(mem, pid, p, it);
      if r.outcome.ret != Success then r.outcome.ret
      else
        var b := IteratorPrevious(mem, pid, p, it);
        if b.ret != Success then b.ret else WalkEnd(mem, pid, p, b.iter, n - 1)
  }

  /** The same list read off the log: the last `n` of `s`, newest first. */
  function Newest(s: seq<Elem>, n: nat): (r: seq<(u16, seq<byte>)>)
    ensures |r| == if n < |s| then n else |s|
    ensures forall i :: 0 <= i < |r| ==> r[i] == (s[|s| - 1 - i].id, s[|s| - 1 - i].data)
  {
    if n == 0 || s == [] then [] else [(Last(s).id, Last(s).data)] + Newest(s[..|s| - 1], n - 1)
  }

  lemma ReadReachable(mem: seq<byte>, pid: u16, p: Partition, log: Log, i: nat)
    requires LogInv(mem, pid, p, log) && i < |Reachable(log)|
    ensures var e := Reachable(log)[i];
      && |e.data| < 0x1_0000
      && IteratorRead(mem, pid, p, At(pid, e)) == ElementRead(Outcome(Success, p, At(pid, e), []), e.data, e.id)
  {
    LogReadback(mem, pid, p, log);
    assert p.hasFirstElement && PartEnd(p) <= |mem|;
    hide Readback, ChainInv, OlderInv, IteratorRead, Registered;
    var e := Reachable(log)[i];
    assert Readback(mem, pid, p, e);
    ReadbackSize(mem, pid, p, e);
    ReadAt(mem, pid, p, e);
  }

  /** One element of a walk, and the rest of it. */
  lemma WalkStep(mem: seq<byte>, pid: u16, p: Partition, log: Log, i: nat, n: nat)
    requires LogInv(mem, pid, p, log) && i < |Reachable(log)| && n > 0
    ensures |Reachable(log)[i].data| < 0x1_0000
    ensures var e := Reachable(log)[i];
            var b := IteratorPrevious(mem, pid, p, At(pid, e));
      WalkBack(mem, pid, p, At(pid, e), n)
      == [(e.id, e.data)] + (if b.ret != Success then [] else WalkBack(mem, pid, p, b.iter, n - 1))
  {
    hide LogInv, IteratorRead, IteratorPrevious, At, Reachable;
    ReadReachable(mem, pid, p, log, i);
  }

  lemma NewestStep(s: seq<Elem>, i: nat, n: nat)
    requires i < |s|
    ensures n > 0 ==> Newest(s[..i + 1], n) == [(s[i].id, s[i].data)] + Newest(s[..i], n - 1)
    ensures Newest(s[..i + 1], 0) == [] && Newest(s[..0], n) == []
  {
    assert s[..i + 1][..i] == s[..i] && Last(s[..i + 1]) == s[i];
  }

  lemma NoWalk(mem: seq<byte>, pid: u16, p: Partition, it: Iterator)
    ensures WalkBack(mem, pid, p, it, 0) == []
  {
  }

  /** A walk of `n` steps from reachable element `i` finds the newest `n` elements up to it. */
  lemma {:induction false} WalkFindsReachable(mem: seq<byte>, pid: u16, p: Partition, log: Log, i: nat, n: nat)
    requires LogInv(mem, pid, p, log) && i < |Reachable(log)| && n <= i + 1
    ensures |Reachable(log)[i].data| < 0x1_0000
    ensures WalkBack(mem, pid, p, At(pid, Reachable(log)[i]), n) == Newest(Reachable(log)[..i + 1], n)
    decreases n
  {
    hide *;
    ReadReachable(mem, pid, p, log, i);
    NewestStep(Reachable(log), i, n);
    if n == 0 {
      NoWalk(mem, pid, p, At(pid, Reachable(log)[i]));
    } else {
      WalkStep(mem, pid, p, log, i, n);
      if i > 0 {
        PreviousIsPrevious(mem, pid, p, log, i);
        WalkFindsReachable(mem, pid, p, log, i - 1, n - 1);
      } else {
        WalkOfOne(mem, pid, p, log, n);
      }
    }
  }

  lemma WalkOfOne(mem: seq<byte>, pid: u16, p: Partition, log: Log, n: nat)
    requires LogInv(mem, pid, p, log) && Reachable(log) != [] && n == 1 && |Reachable(log)[0].data| < 0x1_0000
    ensures WalkBack(mem, pid, p, At(pid, Reachable(log)[0]), n) == Newest(Reachable(log)[..1], n)
  {
    hide LogInv, IteratorRead, IteratorPrevious, At, WalkBack, Newest, Reachable;
    WalkStep(mem, pid, p, log, 0, n);
    NewestStep(Reachable(log), 0, n);
    forall it: Iterator ensures WalkBack(mem, pid, p, it, 0) == [] {
      NoWalk(mem, pid, p, it);
    }
  }
}
