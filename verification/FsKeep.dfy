/** Every store keeps the log: old elements stay, the new one is appended. */
module FsKeep {
  import opened Bytes
  import opened Words
  import opened Crc16
  import opened Units
  import opened FsTypes
  import opened FsSpec
  import opened FsLog
  import opened FsStore

  /** The arguments of a store: a registered partition on byte-unit storage, and enough data. */
  predicate CanStore(g: Geometry, mem: seq<byte>, pid: u16, p: Partition, data: seq<byte>, len: u16) {
    ByteUnits(g) && TotalSize(g) == |mem| && Registered(mem, pid, p) && EffectiveLen(pid, p, len) <= |data|
  }

  /** The element a store is about to write. */
  function StoredElem(pid: u16, p: Partition, data: seq<byte>, len: u16): Elem
    requires EffectiveLen(pid, p, len) <= |data|
  {
    var n := EffectiveLen(pid, p, len);
    NewElem(Placement(pid, p, n), data[..n])
  }

  /** The checks in front of a store write nothing. */
  lemma PrepareIsQuiet(g: Geometry, mem: seq<byte>, pid: u16, p: Partition, it: Iterator, n: u16)
    requires Regular(g) && TotalSize(g) == |mem| && Registered(mem, pid, p) && Stable(mem, pid, p)
    ensures var r := PrepareStore(g, mem, pid, p, it, n);
      && (r.Refused? ==> r.outcome.writes == [] && r.outcome.part == p)
      && (r.Ready? ==>
           && r.part == p && r.done == [] && r.place == Placement(pid, p, n)
           && (r.iter == it || r.iter == it.(valid := false)))
  {
    hide Registered, Regular, TotalSize, NextHeader, CheckConflict, ClearNext, Stable, AllFit, SameButMetadata, HeaderLen;
    var place := Placement(pid, p, n);
    StableChecks(g, mem, pid, p, it, place.address, n);
    StableNext(mem, pid, p, place.address, place.recordId, n);
    ConflictKeepsPosition(g, mem, pid, p, it, place.address, n);
    ApplyNothing(mem);
    var none: seq<WriteOp> := [];
    assert none + none == none;
    hide Placement;
  }

  /** What the checks let pass has room in the partition, and its successor's stale header will be erased. */
  lemma PrepareLeavesRoom(g: Geometry, mem: seq<byte>, pid: u16, p: Partition, it: Iterator, n: u16, e: Elem)
    requires Regular(g) && TotalSize(g) == |mem| && Registered(mem, pid, p) && Stable(mem, pid, p)
    requires |e.data| == n && e == NewElem(Placement(pid, p, n), e.data)
    requires p.firstElementAddress <= e.address
    ensures var r := PrepareStore(g, mem, pid, p, it, n);
      r.Ready? ==>
        && End(pid, p.firstElementAddress, e) <= PartEnd(p)
        && r.clear == ClearOf(mem, pid, p, e)
        && Readable(mem, pid, p.firstElementAddress, e)
  {
    hide Registered, Regular, TotalSize, NoNext, NextHeader, CheckConflict, ClearNext, ClearOf, Stable, AllFit,
      SameButMetadata, HeaderLen, FullHeaderLen;
    var place := Placement(pid, p, n);
    StableChecks(g, mem, pid, p, it, place.address, n);
    NextIsReadable(mem, pid, p, place.address, place.recordId, n);
    ApplyNothing(mem);
    hide Placement;
    if Readable(mem, pid, p.firstElementAddress, e) {
      ClearIffNext(mem, pid, p, e);
    }
  }

  lemma NextIsReadable(mem: seq<byte>, pid: u16, p: Partition, address: nat, id: u16, len: u16)
    requires p.firstElementAddress <= address
    ensures NextHeader(mem, pid, p, address, id, len).ret in {Success, NotFound} ==>
              EndOf(pid, p.firstElementAddress, address, len) + HeaderLen(pid) <= |mem|
  {
    hide ReadFirst, DeserializeHeader;
  }

  /** A store that succeeds is its writes and nothing else; one that fails changes nothing. */
  lemma StoreUnfolds(g: Geometry, mem: seq<byte>, pid: u16, p: Partition, it: Iterator, data: seq<byte>, len: u16)
    requires CanStore(g, mem, pid, p, data, len) && Stable(mem, pid, p)
    requires p.firstElementAddress <= StoredElem(pid, p, data, len).address
    ensures var r := StoreElement(g, mem, pid, p, it, data, len);
            var e := StoredElem(pid, p, data, len);
      && (r.ret != Success ==> r.writes == [] && r.part == p)
      && (r.ret == Success ==>
           && End(pid, p.firstElementAddress, e) <= PartEnd(p)
           && (!IsDynamic(pid) ==> |e.data| == p.metadata.firstElementLen)
           && AllFit(|mem|, ClearOf(mem, pid, p, e))
           && Readable(mem, pid, p.firstElementAddress, e)
           && r == CommitElement(g, mem, pid, p, r.iter, Placement(pid, p, |e.data|), e.data, [], ClearOf(mem, pid, p, e))
           && (r.iter == it || r.iter == it.(valid := false)))
  {
    var n := EffectiveLen(pid, p, len);
    var e := StoredElem(pid, p, data, len);
    ApplyNothing(mem);
    hide PrepareStore, CommitElement, Registered, ByteUnits, TotalSize, ClearOf, Placement, Reach, AllFit, Stable;
    PrepareIsQuiet(g, mem, pid, p, it, n);
    PrepareLeavesRoom(g, mem, pid, p, it, n, e);
  }

  lemma ConflictKeepsPosition(g: Geometry, mem: seq<byte>, pid: u16, p: Partition, it: Iterator, address: nat, len: u16)
    requires Regular(g)
    ensures var c := CheckConflict(g, mem, pid, p, it, address, len); c.iter == it || c.iter == it.(valid := false)
  {
    hide CheckValidity, UnitLimits;
  }

  lemma ClearWithin(mem: seq<byte>, pid: u16, p: Partition, e: Elem)
    requires p.firstElementAddress <= e.address
    ensures Within(ClearOf(mem, pid, p, e), e.address, Reach(mem, pid, p, e),
                   SwapAddress(pid), SwapEnd(pid))
    ensures End(pid, p.firstElementAddress, e) <= Reach(mem, pid, p, e)
  {
    hide NoNext;
  }

  /** The situation in which the writes of a store begin. */
  predicate Committing(g: Geometry, mem: seq<byte>, pid: u16, p: Partition, place: Place, e: Elem) {
    && ByteUnits(g) && TotalSize(g) == |mem| && Registered(mem, pid, p) && |e.data| < 0x1_0000
    && e == NewElem(place, e.data) && p.firstElementAddress <= e.address
    && End(pid, p.firstElementAddress, e) <= PartEnd(p)
    && (!IsDynamic(pid) ==> |e.data| == p.metadata.firstElementLen)
    && AllFit(|mem|, ClearOf(mem, pid, p, e))
    && Readable(mem, pid, p.firstElementAddress, e)
  }

  lemma SlotWithin(ws: seq<WriteOp>, bytes: seq<byte>, lo: nat, hi: nat, slot: nat, n: nat)
    requires ws == [] || (ws == [WriteOp(slot, bytes)] && |bytes| <= n)
    ensures Within(ws, lo, hi, slot, slot + n)
  {
  }

  /** The writes of a store: erase, back up, head, payload. */
  lemma CommitIsWrites(g: Geometry, mem: seq<byte>, pid: u16, p: Partition, it: Iterator, place: Place, e: Elem)
    returns (backup: seq<WriteOp>)
    requires Committing(g, mem, pid, p, place, e)
    ensures CommitElement(g, mem, pid, p, it, place, e.data, [], ClearOf(mem, pid, p, e)).writes
         == StoreWrites(ClearOf(mem, pid, p, e), backup, e.address, HeadBytes(pid, p, place, e.data), e.data)
    ensures backup == [] || (e.address == p.firstElementAddress
                             && backup == [WriteOp(SwapAddress(pid), HeadBytes(pid, p, place, e.data))])
    ensures e.address == p.firstElementAddress ==>
              AllFit(|mem|, ClearOf(mem, pid, p, e) + backup)
              && Holds(Apply(mem, ClearOf(mem, pid, p, e) + backup), SwapAddress(pid), HeadBytes(pid, p, place, e.data))
    ensures AllFit(|mem|, backup) && Within(backup, e.address, e.address, SwapAddress(pid), SwapEnd(pid))
  {
    var clear, bytes := ClearOf(mem, pid, p, e), HeadBytes(pid, p, place, e.data);
    hide NoNext, HeadBytes, WithHeader, Apply, Holds, ClearOf, StoreWrites;
    var mem1 := Apply(mem, clear);
    backup := CommitBackup(g, mem1, pid, p, place, e.data);
    CommitBackupInSlot(g, mem1, pid, p, place, e.data);
    SlotWithin(backup, bytes, e.address, e.address, SwapAddress(pid), FirstLen(pid));
    ApplyConcat(mem, clear, backup);
    var ws := StoreWrites(clear, backup, e.address, bytes, e.data);
    assert [] + ws == ws;
  }

  lemma CommitStores(g: Geometry, mem: seq<byte>, pid: u16, p: Partition, it: Iterator, place: Place, e: Elem)
    requires Committing(g, mem, pid, p, place, e)
    ensures var ws := CommitElement(g, mem, pid, p, it, place, e.data, [], ClearOf(mem, pid, p, e)).writes;
      && AllFit(|mem|, ws)
      && Holds(Apply(mem, ws), e.address, HeadBytes(pid, p, place, e.data) + e.data)
      && ChangedOnly(mem, Apply(mem, ws), e.address, Reach(mem, pid, p, e),
                     SwapAddress(pid), SwapEnd(pid))
  {
    ClearWithin(mem, pid, p, e);
    var clear, bytes := ClearOf(mem, pid, p, e), HeadBytes(pid, p, place, e.data);
    var swap, reach := SwapAddress(pid), Reach(mem, pid, p, e);
    hide NoNext, HeadBytes, CommitElement, ClearOf, Reach, StoreWrites, Apply, Holds, ChangedOnly, SwapAddress;
    var backup := CommitIsWrites(g, mem, pid, p, it, place, e);
    assert Within(backup, e.address, reach, swap, SwapEnd(pid));
    StoreWritesEffect(mem, clear, backup, e.address, bytes, e.data, reach, swap, SwapEnd(pid));
  }

  lemma CommitEffect(g: Geometry, mem: seq<byte>, pid: u16, p: Partition, it: Iterator, place: Place, e: Elem)
    requires Committing(g, mem, pid, p, place, e)
    ensures var r := CommitElement(g, mem, pid, p, it, place, e.data, [], ClearOf(mem, pid, p, e));
      && AllFit(|mem|, r.writes)
      && Holds(Apply(mem, r.writes), e.address, HeadBytes(pid, p, place, e.data) + e.data)
      && ChangedOnly(mem, Apply(mem, r.writes), e.address, Reach(mem, pid, p, e),
                     SwapAddress(pid), SwapEnd(pid))
      && NoNext(Apply(mem, r.writes), pid, r.part, e)
  {
    var r := CommitElement(g, mem, pid, p, it, place, e.data, [], ClearOf(mem, pid, p, e));
    assert SameShape(pid, p, r.part) && Registered(mem, pid, p);
    hide NoNext, HeadBytes, Apply, Holds, ClearOf, Reach, StoreWrites, CommitElement, SameShape;
    var backup := CommitIsWrites(g, mem, pid, p, it, place, e);
    hide Committing, Registered, Within, AllFit, ChangedOnly, FullHeaderLen;
    CommitStores(g, mem, pid, p, it, place, e);
    NoNextAfterStore(mem, ClearOf(mem, pid, p, e), backup, pid, p, r.part, e, HeadBytes(pid, p, place, e.data));
  }

  lemma NoNextAfterStore(mem: seq<byte>, clear: seq<WriteOp>, backup: seq<WriteOp>, pid: u16, p: Partition,
                         q: Partition, e: Elem, bytes: seq<byte>)
    requires Registered(mem, pid, p) && SameShape(pid, p, q)
    requires p.firstElementAddress <= e.address && |bytes| == FullHeaderLen(pid, p.firstElementAddress, e.address)
    requires clear == ClearOf(mem, pid, p, e) && AllFit(|mem|, clear)
    requires Within(backup, e.address, e.address, SwapAddress(pid), SwapEnd(pid))
    requires AllFit(|mem|, StoreWrites(clear, backup, e.address, bytes, e.data))
    ensures NoNext(Apply(mem, StoreWrites(clear, backup, e.address, bytes, e.data)), pid, q, e)
  {
    hide NoNext, Apply, SameShape, ClearOf, HeaderLen;
    var next := End(pid, p.firstElementAddress, e);
    var rest := StoreWrites([], backup, e.address, bytes, e.data);
    var ws := StoreWrites(clear, backup, e.address, bytes, e.data);
    assert ws == clear + rest;
    StoreWithin([], backup, e.address, bytes, e.data, next, SwapAddress(pid), SwapEnd(pid));
    assert AllFit(|mem|, rest) by {
      forall i | 0 <= i < |rest| ensures rest[i].address + |rest[i].data| <= |mem| {
        assert rest[i] == ws[|clear| + i];
      }
    }
    hide StoreWrites, Within, End, FullHeaderLen, Registered;
    var mem1 := Apply(mem, clear);
    ApplyConcat(mem, clear, rest);
    ApplyWithin(mem1, rest, e.address, next, SwapAddress(pid), SwapEnd(pid));
    RegisteredIn(mem, mem1, pid, p);
    ClearedNoNext(mem, mem1, pid, p, e);
    KeptNoNext(mem1, Apply(mem, ws), pid, p, q, e, e.address, next);
  }

  lemma ClearedNoNext(mem: seq<byte>, mem1: seq<byte>, pid: u16, p: Partition, e: Elem)
    requires Registered(mem, pid, p)
    requires AllFit(|mem|, ClearOf(mem, pid, p, e)) && mem1 == Apply(mem, ClearOf(mem, pid, p, e))
    ensures NoNext(mem1, pid, p, e)
  {
    if NoNext(mem, pid, p, e) {
      ApplyNothing(mem);
    } else {
      ErasedNoNext(mem, mem1, pid, p, e);
    }
  }

  lemma ErasedNoNext(mem: seq<byte>, mem1: seq<byte>, pid: u16, p: Partition, e: Elem)
    requires Registered(mem, pid, p) && !NoNext(mem, pid, p, e)
    requires AllFit(|mem|, ClearOf(mem, pid, p, e)) && mem1 == Apply(mem, ClearOf(mem, pid, p, e))
    ensures NoNext(mem1, pid, p, e)
  {
    hide DeserializeHeader, ErasedBlob;
    var next, n := End(pid, p.firstElementAddress, e), HeaderLen(pid);
    ApplyNothing(mem);
    ApplySnoc(mem, [], WriteOp(next, Repeat(0xFF, n)));
    assert [] + ClearOf(mem, pid, p, e) == ClearOf(mem, pid, p, e);
    HoldsWritten(mem, next, Repeat(0xFF, n));
    ErasedIsNoRecord(pid);
  }

  // ---- the log after a store ----

  /** Nothing but [lo, hi) and the partition's copy in the swap page has changed. */
  ghost predicate StoreChanged(mem: seq<byte>, mem': seq<byte>, pid: u16, lo: nat, hi: nat) {
    ChangedOnly(mem, mem', lo, hi, SwapAddress(pid), SwapEnd(pid))
  }

  lemma OutOfReach(mem: seq<byte>, mem': seq<byte>, pid: u16, p: Partition, lo: nat, hi: nat, a: nat, b: nat)
    requires Registered(mem, pid, p) && StoreChanged(mem, mem', pid, lo, hi)
    requires p.firstElementAddress <= a && b <= PartEnd(p) && (b <= lo || hi <= a)
    ensures Agree(mem, mem', a, b)
  {
  }

  /** A suffix of a linked run of elements, all of it at or behind `bound`. */
  lemma FromIsLinked(pid: u16, start: nat, s: seq<Elem>, bound: nat)
    requires Linked(pid, start, s)
    ensures Linked(pid, start, From(s, bound))
    ensures forall i :: 0 <= i < |From(s, bound)| ==> bound <= From(s, bound)[i].address
    ensures From(s, bound) != [] ==> Last(From(s, bound)) == Last(s)
    ensures forall n :: AllOfLen(s, n) ==> AllOfLen(From(s, bound), n)
    ensures forall i :: 0 <= i < |From(s, bound)| ==> End(pid, start, From(s, bound)[i]) <= End(pid, start, Last(s))
  {
    hide Follows;
    var r := From(s, bound);
    var d := |s| - |r|;
    forall i | 0 < i < |r| ensures Follows(pid, start, r[i - 1], r[i]) {
      assert r[i] == s[d + i] && r[i - 1] == s[d + i - 1];
    }
    if r != [] {
      LinkedBounds(pid, start, r);
    }
  }

  /** Elements out of reach of a store still lie in storage. */
  lemma KeptElems(mem: seq<byte>, mem': seq<byte>, pid: u16, p: Partition, s: seq<Elem>, lo: nat, hi: nat)
    requires Registered(mem, pid, p) && StoreChanged(mem, mem', pid, lo, hi)
    requires AllLie(mem, pid, p.firstElementAddress, s)
    requires forall i :: 0 <= i < |s| ==>
               && (End(pid, p.firstElementAddress, s[i]) <= lo || hi <= s[i].address)
               && End(pid, p.firstElementAddress, s[i]) <= PartEnd(p)
    ensures AllLie(mem', pid, p.firstElementAddress, s)
  {
    assert forall i :: 0 <= i < |s| ==> p.firstElementAddress <= s[i].address;
    hide Lies, AllLie, Registered, StoreChanged, End, PartEnd, Agree;
    forall i | 0 <= i < |s| ensures Agree(mem, mem', s[i].address, End(pid, p.firstElementAddress, s[i])) {
      OutOfReach(mem, mem', pid, p, lo, hi, s[i].address, End(pid, p.firstElementAddress, s[i]));
    }
    AllLieFrame(mem, mem', pid, p.firstElementAddress, s);
  }

  lemma KeptNoNext(mem: seq<byte>, mem': seq<byte>, pid: u16, p: Partition, q: Partition, e: Elem, lo: nat, hi: nat)
    requires Registered(mem, pid, p) && NoNext(mem, pid, p, e) && SameShape(pid, p, q)
    requires StoreChanged(mem, mem', pid, lo, hi)
    requires p.firstElementAddress <= e.address && hi <= End(pid, p.firstElementAddress, e)
    ensures NoNext(mem', pid, q, e)
  {
    assert |mem'| == |mem|;
    hide NoNext, SameShape, StoreChanged, Agree;
    var next := End(pid, p.firstElementAddress, e);
    if next + HeaderLen(pid) <= PartEnd(p) <= |mem| {
      OutOfReach(mem, mem', pid, p, lo, hi, next, next + HeaderLen(pid));
    }
    NoNextFrame(mem, mem', pid, p, q, e);
  }

  lemma KeptEnd(mem: seq<byte>, mem': seq<byte>, pid: u16, p: Partition, q: Partition, e: Elem, lo: nat, hi: nat)
    requires Registered(mem, pid, p) && EndsLap(mem, pid, p, e) && SameShape(pid, p, q)
    requires StoreChanged(mem, mem', pid, lo, hi)
    requires p.firstElementAddress <= e.address && hi <= End(pid, p.firstElementAddress, e)
    ensures EndsLap(mem', pid, q, e)
  {
    assert |mem'| == |mem|;
    hide NoNext, StoreChanged, Registered, HeaderLen;
    KeptNoNext(mem, mem', pid, p, q, e, lo, hi);
  }

  /** The surviving part of the previous lap satisfies its invariant behind the new chain. */
  lemma OlderKept(mem: seq<byte>, mem': seq<byte>, pid: u16, p: Partition, q: Partition, s: seq<Elem>,
                  chain: seq<Elem>, lo: nat, hi: nat)
    requires Registered(mem, pid, p) && SameShape(pid, p, q)
    requires StoreChanged(mem, mem', pid, lo, hi)
    requires p.firstElementAddress <= lo && p.firstElementAddress < hi && chain != [] && s != []
    requires Linked(pid, p.firstElementAddress, s) && EndsLap(mem, pid, p, Last(s))
    requires AllLie(mem, pid, p.firstElementAddress, From(s, hi))
    requires End(pid, p.firstElementAddress, Last(chain)) <= hi
    requires Succeeds(Last(s), chain[0])
    ensures From(s, hi) != [] ==> OlderInv(mem', pid, q, From(s, hi), chain)
  {
    var start, r := p.firstElementAddress, From(s, hi);
    assert q.firstElementAddress == start;
    FromIsLinked(pid, start, s, hi);
    assert End(pid, start, Last(s)) <= PartEnd(p);
    hide From, Linked, AllLie, EndsLap, Succeeds, Registered, StoreChanged, SameShape, AllOfLen, End, PartEnd;
    if r != [] {
      KeptElems(mem, mem', pid, p, r, lo, hi);
      KeptEnd(mem, mem', pid, p, q, Last(s), lo, hi);
    }
  }

  /** The elements of the chain behind `bound` all lie in storage: the first one is not among them. */
  lemma FromChainLies(mem: seq<byte>, pid: u16, p: Partition, chain: seq<Elem>, bound: nat)
    requires ChainInv(mem, pid, p, chain) && p.firstElementAddress < bound
    ensures AllLie(mem, pid, p.firstElementAddress, From(chain, bound))
  {
    ChainInBounds(mem, pid, p, chain);
    hide ChainInv, Lies;
    var r := From(chain, bound);
    var d := |chain| - |r|;
    assert r != [] ==> d > 0;
    forall i | 0 <= i < |r| ensures Lies(mem, pid, p.firstElementAddress, r[i]) {
      assert r[i] == chain[d + i];
    }
  }

  lemma FromLies(mem: seq<byte>, pid: u16, start: nat, s: seq<Elem>, bound: nat)
    requires AllLie(mem, pid, start, s)
    ensures AllLie(mem, pid, start, From(s, bound))
  {
    hide Lies;
  }

  /** What a store has to bring about for the log to go on; `reach` bounds what it changed. */
  ghost predicate Stored(mem: seq<byte>, mem': seq<byte>, pid: u16, p: Partition, q: Partition, log: Log, e: Elem, reach: nat) {
    var start := p.firstElementAddress;
    && Registered(mem, pid, p) && Registered(mem', pid, q) && SameShape(pid, p, q)
    && StoreChanged(mem, mem', pid, e.address, reach)
    && WellFormed(e) && start <= e.address && start < reach
    && End(pid, start, e) <= reach
    && EndsLap(mem', pid, q, e)
    && q.hasFirstElement && q.latestElementAddress == e.address
    && q.latestRecordId == e.id && q.latestElementLen == |e.data|
    && (!IsDynamic(pid) ==> |e.data| == p.metadata.firstElementLen)
    && (log.chain != [] ==> Succeeds(Last(log.chain), e))
  }

  /** What is left of the previous lap `s` behind a store, with the chain the store begins or continues. */
  lemma OlderLeft(mem: seq<byte>, mem': seq<byte>, pid: u16, p: Partition, q: Partition, s: seq<Elem>, chain: seq<Elem>,
                  lo: nat, reach: nat, n: nat)
    requires Registered(mem, pid, p) && SameShape(pid, p, q)
    requires StoreChanged(mem, mem', pid, lo, reach)
    requires p.firstElementAddress <= lo && p.firstElementAddress < reach && chain != [] && s != []
    requires Linked(pid, p.firstElementAddress, s) && EndsLap(mem, pid, p, Last(s))
    requires AllLie(mem, pid, p.firstElementAddress, From(s, reach))
    requires End(pid, p.firstElementAddress, Last(chain)) <= reach
    requires Succeeds(Last(s), chain[0]) && (!IsDynamic(pid) ==> AllOfLen(s, n))
    ensures var r := From(s, reach);
      && (r != [] ==> OlderInv(mem', pid, q, r, chain) && Last(r) == Last(s))
      && (!IsDynamic(pid) ==> AllOfLen(r, n))
  {
    hide From, AllLie, Linked, EndsLap, Succeeds, Registered, StoreChanged, End, SameShape, AllOfLen, OlderInv, Lies;
    OlderKept(mem, mem', pid, p, q, s, chain, lo, reach);
    FromIsLinked(pid, p.firstElementAddress, s, reach);
  }

  /** A store at the partition start: a new chain begins, the old one becomes the previous lap. */
  lemma NewLap(mem: seq<byte>, mem': seq<byte>, pid: u16, p: Partition, q: Partition, log: Log, e: Elem, reach: nat)
    requires PartInv(mem, pid, p, log) && Stored(mem, mem', pid, p, q, log, e, reach)
    requires e.address == p.firstElementAddress && LiesFirst(mem', pid, q, e)
    requires q.metadata.lastElementAddress
          == if End(pid, p.firstElementAddress, e) >= p.latestElementAddress then p.firstElementAddress
             else p.latestElementAddress
    ensures LogInv(mem', pid, q, AfterStore(pid, p.firstElementAddress, log, e, reach))
  {
    hide Lies, LiesFirst, EndsLap, Succeeds, Registered, StoreChanged, End, EmptyInv, WellFormed, OlderInv;
    var start := p.firstElementAddress;
    assert q.firstElementAddress == start;
    assert ChainInv(mem', pid, q, [e]);
    if log.chain != [] {
      FromChainLies(mem, pid, p, log.chain, reach);
      assert Linked(pid, start, log.chain) && EndsLap(mem, pid, p, Last(log.chain));
      hide SameShape, ChainInv, Linked, AllLie;
      OlderLeft(mem, mem', pid, p, q, log.chain, [e], start, reach, p.metadata.firstElementLen);
    }
  }

  /** A store behind the latest element: the previous lap loses what is overwritten. */
  lemma ShorterOlder(mem: seq<byte>, mem': seq<byte>, pid: u16, p: Partition, q: Partition, log: Log, e: Elem, reach: nat)
    requires LogInv(mem, pid, p, log) && Stored(mem, mem', pid, p, q, log, e, reach) && log.older != []
    requires e.address == End(pid, p.firstElementAddress, Last(log.chain))
    ensures var r := From(log.older, reach);
      && (r != [] ==> OlderInv(mem', pid, q, r, log.chain + [e]) && Last(r) == Last(log.older))
      && (!IsDynamic(pid) ==> AllOfLen(r, p.metadata.firstElementLen))
  {
    var start, chain := p.firstElementAddress, log.chain;
    hide Lies, LiesFirst, Linked, AllLie, EndsLap, Succeeds, Registered, StoreChanged, End, WellFormed, SameShape;
    FromLies(mem, pid, start, log.older, reach);
    assert (chain + [e])[0] == chain[0];
    hide ChainInv;
    OlderLeft(mem, mem', pid, p, q, log.older, chain + [e], e.address, reach, p.metadata.firstElementLen);
  }

  /** The log is in order if its two laps and the record of the latest element are. */
  lemma LogOfLaps(mem: seq<byte>, pid: u16, q: Partition, chain: seq<Elem>, older: seq<Elem>, linked: bool, e: Elem, n: nat)
    requires Registered(mem, pid, q) && q.hasFirstElement && ChainInv(mem, pid, q, chain) && Last(chain) == e
    requires q.latestElementAddress == e.address && q.latestRecordId == e.id && q.latestElementLen == |e.data|
    requires older != [] ==> OlderInv(mem, pid, q, older, chain)
    requires linked ==> older != [] && q.metadata.lastElementAddress == Last(older).address
    requires !IsDynamic(pid) ==> n == q.metadata.firstElementLen && AllOfLen(older, n) && AllOfLen(chain, n)
    ensures LogInv(mem, pid, q, Log(older, chain, linked))
  {
    hide Registered, OlderInv, LiesFirst, AllLie, Linked, EndsLap;
  }

  lemma SnocOfLen(s: seq<Elem>, e: Elem, n: nat)
    ensures AllOfLen(s, n) && |e.data| == n ==> AllOfLen(s + [e], n)
  {
  }

  /** A store behind the latest element: the chain grows. */
  lemma LongerChain(mem: seq<byte>, mem': seq<byte>, pid: u16, p: Partition, q: Partition, log: Log, e: Elem, reach: nat)
    requires LogInv(mem, pid, p, log) && Stored(mem, mem', pid, p, q, log, e, reach)
    requires e.address == End(pid, p.firstElementAddress, Last(log.chain))
    requires Lies(mem', pid, p.firstElementAddress, e)
    requires q.metadata == p.metadata
    ensures LogInv(mem', pid, q, AfterStore(pid, p.firstElementAddress, log, e, reach))
  {
    var start, chain := p.firstElementAddress, log.chain;
    assert q.firstElementAddress == start;
    hide Lies, LiesFirst, Linked, AllLie, EndsLap, Succeeds, Registered, StoreChanged, End, EmptyInv, WellFormed,
      SameShape, OlderInv, ChainInv, From, AllOfLen, Reach;
    SnocOfLen(chain, e, p.metadata.firstElementLen);
    ChainGrows(mem, mem', pid, p, q, chain, e, reach);
    if log.older != [] {
      ShorterOlder(mem, mem', pid, p, q, log, e, reach);
    }
    var older := From(log.older, reach);
    LogOfLaps(mem', pid, q, chain + [e], older, log.linked && older != [], e, p.metadata.firstElementLen);
  }

  lemma ChainGrows(mem: seq<byte>, mem': seq<byte>, pid: u16, p: Partition, q: Partition, chain: seq<Elem>, e: Elem, reach: nat)
    requires ChainInv(mem, pid, p, chain) && Registered(mem, pid, p)
    requires StoreChanged(mem, mem', pid, e.address, reach)
    requires e.address == End(pid, p.firstElementAddress, Last(chain)) && Succeeds(Last(chain), e)
    requires Lies(mem', pid, p.firstElementAddress, e) && EndsLap(mem', pid, q, e)
    requires q.metadata == p.metadata && q.firstElementAddress == p.firstElementAddress
    ensures ChainInv(mem', pid, q, chain + [e])
  {
    hide LiesFirst, Lies, Registered, StoreChanged, End, EndsLap, Succeeds;
    var start := p.firstElementAddress;
    ChainStillLies(mem, mem', pid, p, chain, e.address, reach);
    LiesFirstRecord(mem', pid, p, q, chain[0]);
    assert (chain + [e])[1..] == chain[1..] + [e];
  }

  /** The chain lies below what a store behind it changes. */
  lemma ChainStillLies(mem: seq<byte>, mem': seq<byte>, pid: u16, p: Partition, chain: seq<Elem>, lo: nat, hi: nat)
    requires ChainInv(mem, pid, p, chain) && Registered(mem, pid, p)
    requires StoreChanged(mem, mem', pid, lo, hi)
    requires End(pid, p.firstElementAddress, Last(chain)) <= lo
    ensures LiesFirst(mem', pid, p, chain[0])
    ensures AllLie(mem', pid, p.firstElementAddress, chain[1..])
  {
    ChainInBounds(mem, pid, p, chain);
    var start := p.firstElementAddress;
    assert End(pid, start, Last(chain)) <= PartEnd(p);
    hide LiesFirst, Lies, AllLie, WellFormed, StoreChanged, Registered, End, PartEnd, EndsLap, Linked;
    OutOfReach(mem, mem', pid, p, lo, hi, start, End(pid, start, chain[0]));
    LiesFirstFrame(mem, mem', pid, p, chain[0]);
    KeptElems(mem, mem', pid, p, chain[1..], lo, hi);
  }

  lemma LiesFirstRecord(mem: seq<byte>, pid: u16, p: Partition, q: Partition, e: Elem)
    requires LiesFirst(mem, pid, p, e)
    requires q.metadata == p.metadata && q.firstElementAddress == p.firstElementAddress
    ensures LiesFirst(mem, pid, q, e)
  {
    hide Sealed, FirstBlob;
  }

  /** `e` is the element after the last one of the chain. */
  predicate Continues(log: Log, e: Elem) {
    log.chain != [] ==> Succeeds(Last(log.chain), e)
  }

  /** What has to be known for the log to go on. */
  lemma StoredFrom(g: Geometry, mem: seq<byte>, mem': seq<byte>, pid: u16, p: Partition, q: Partition, place: Place, log: Log, e: Elem)
    requires Committing(g, mem, pid, p, place, e) && WellFormed(e) && Continues(log, e)
    requires Registered(mem, pid, q) && SameShape(pid, p, q) && q.firstElementAddress == p.firstElementAddress
    requires q.hasFirstElement && q.latestElementAddress == e.address && q.latestRecordId == e.id && q.latestElementLen == |e.data|
    requires ChangedOnly(mem, mem', e.address, Reach(mem, pid, p, e), SwapAddress(pid), SwapEnd(pid)) && NoNext(mem', pid, q, e)
    ensures Stored(mem, mem', pid, p, q, log, e, Reach(mem, pid, p, e))
  {
    assert |mem'| == |mem|;
    ClearWithin(mem, pid, p, e);
    hide NoNext, Reach, ClearOf, SameShape, ChangedOnly;
    RegisteredIn(mem, mem', pid, q);
    hide Registered, Xor16, IncrementRecordId, IsRecordId, AllFit;
  }

  lemma CommitIsStored(g: Geometry, mem: seq<byte>, pid: u16, p: Partition, it: Iterator, place: Place, e: Elem, log: Log)
    requires Committing(g, mem, pid, p, place, e) && WellFormed(e) && Continues(log, e)
    ensures var r := CommitElement(g, mem, pid, p, it, place, e.data, [], ClearOf(mem, pid, p, e));
            AllFit(|mem|, r.writes) && Stored(mem, Apply(mem, r.writes), pid, p, r.part, log, e, Reach(mem, pid, p, e))
  {
    CommittingMeans(g, mem, pid, p, place, e);
    hide *;
    var r := CommitElement(g, mem, pid, p, it, place, e.data, [], ClearOf(mem, pid, p, e));
    CommitEffect(g, mem, pid, p, it, place, e);
    StoredFrom(g, mem, Apply(mem, r.writes), pid, p, r.part, place, log, e);
  }

  lemma CommittingMeans(g: Geometry, mem: seq<byte>, pid: u16, p: Partition, place: Place, e: Elem)
    requires Committing(g, mem, pid, p, place, e)
    ensures Regular(g) && TotalSize(g) == |mem| && Registered(mem, pid, p) && |e.data| < 0x1_0000
    ensures AllFit(|mem|, ClearOf(mem, pid, p, e)) && EndOf(pid, p.firstElementAddress, place.address, |e.data|) <= |mem|
  {
    hide ClearOf, Registered, TotalSize, NoNext, Readable;
    assert PartEnd(p) <= |mem| by { RegisteredFits(mem, pid, p); }
  }

  lemma RegisteredFits(mem: seq<byte>, pid: u16, p: Partition)
    requires Registered(mem, pid, p)
    ensures PartEnd(p) <= |mem|
  {
  }

  lemma RegisteredIn(mem: seq<byte>, mem': seq<byte>, pid: u16, p: Partition)
    requires Registered(mem, pid, p) && |mem'| == |mem|
    ensures Registered(mem', pid, p)
  {
  }

  /** The writes of a store keep the invariant, and the log records the element. */
  lemma CommitKeeps(g: Geometry, mem: seq<byte>, pid: u16, p: Partition, it: Iterator, place: Place, e: Elem, log: Log)
    requires Committing(g, mem, pid, p, place, e) && WellFormed(e) && Continues(log, e) && PartInv(mem, pid, p, log)
    requires e.address == p.firstElementAddress
          || (log.chain != [] && e.address == End(pid, p.firstElementAddress, Last(log.chain)))
    ensures var r := CommitElement(g, mem, pid, p, it, place, e.data, [], ClearOf(mem, pid, p, e));
            && AllFit(|mem|, r.writes)
            && PartInv(Apply(mem, r.writes), pid, r.part,
                       AfterStore(pid, p.firstElementAddress, log, e, Reach(mem, pid, p, e)))
  {
    var r := CommitElement(g, mem, pid, p, it, place, e.data, [], ClearOf(mem, pid, p, e));
    var reach := Reach(mem, pid, p, e);
    CommitEffect(g, mem, pid, p, it, place, e);
    CommitIsStored(g, mem, pid, p, it, place, e, log);
    var mem' := Apply(mem, r.writes);
    hide NoNext, Apply, StoreWrites, HeadBytes, Registered, Stored, ChangedOnly, Reach, LogInv, EmptyInv, AfterStore,
      IncrementRecordId, IsRecordId, Xor16, LiesFirst, Lies, ClearOf, CommitBackup, Continues, Holds;
    if e.address == p.firstElementAddress {
      StartRecord(mem, mem', pid, p, place, e, r.part);
      NewLap(mem, mem', pid, p, r.part, log, e, reach);
    } else {
      LongerChain(mem, mem', pid, p, r.part, log, e, reach);
    }
    ChainNotEmpty(pid, p.firstElementAddress, log, e, reach);
  }

  lemma ChainNotEmpty(pid: u16, start: nat, log: Log, e: Elem, reach: nat)
    ensures AfterStore(pid, start, log, e, reach).chain != []
  {
  }

  lemma StoredElemContinues(mem: seq<byte>, pid: u16, p: Partition, data: seq<byte>, len: u16, log: Log)
    requires PartInv(mem, pid, p, log) && EffectiveLen(pid, p, len) <= |data|
    ensures var e := StoredElem(pid, p, data, len);
      && p.firstElementAddress <= e.address && WellFormed(e) && Continues(log, e)
      && (e.address == p.firstElementAddress
          || (log.chain != [] && e.address == End(pid, p.firstElementAddress, Last(log.chain))))
  {
    if log.chain != [] {
      ChainInBounds(mem, pid, p, log.chain);
    }
    hide PartInv, Placement;
  }

  /** A successful store keeps the invariant, and the log records the element. */
  lemma StoreKeeps(g: Geometry, mem: seq<byte>, pid: u16, p: Partition, it: Iterator, data: seq<byte>, len: u16, log: Log)
    requires CanStore(g, mem, pid, p, data, len) && PartInv(mem, pid, p, log)
    requires StoreElement(g, mem, pid, p, it, data, len).ret == Success
    ensures var r := StoreElement(g, mem, pid, p, it, data, len);
            var e := StoredElem(pid, p, data, len);
      && AllFit(|mem|, r.writes)
      && PartInv(Apply(mem, r.writes), pid, r.part,
                 AfterStore(pid, p.firstElementAddress, log, e, Reach(mem, pid, p, e)))
  {
    var e := StoredElem(pid, p, data, len);
    var r := StoreElement(g, mem, pid, p, it, data, len);
    StoredElemContinues(mem, pid, p, data, len, log);
    PartIsStable(mem, pid, p, log);
    StoreUnfolds(g, mem, pid, p, it, data, len);
    assert Committing(g, mem, pid, p, Placement(pid, p, |e.data|), e);
    hide StoreElement, Placement, Committing, PartInv, Apply, AfterStore, Reach, ClearOf, CommitElement;
    CommitKeeps(g, mem, pid, p, r.iter, Placement(pid, p, |e.data|), e, log);
  }

  /** The new first header, in RAM and in storage. */
  lemma StartRecord(mem: seq<byte>, mem': seq<byte>, pid: u16, p: Partition, place: Place, e: Elem, q: Partition)
    requires Registered(mem, pid, p) && |e.data| < 0x1_0000 && IsRecordId(e.id)
    requires e == NewElem(place, e.data) && e.address == p.firstElementAddress
    requires p.latestElementAddress < 0x1_0000_0000
    requires q == WithHeader(pid, p, place, e.data).(
                    latestElementAddress := place.address, latestRecordId := place.recordId,
                    latestElementLen := |e.data|, hasFirstElement := true)
    requires Holds(mem', e.address, HeadBytes(pid, p, place, e.data) + e.data)
    ensures LiesFirst(mem', pid, q, e)
    ensures q.metadata.lastElementAddress
         == if End(pid, p.firstElementAddress, e) >= p.latestElementAddress then p.firstElementAddress
            else p.latestElementAddress
    ensures Registered(mem, pid, q)
    ensures q.metadata.firstElementLen == |e.data|
  {
    hide FirstBlob, BlobCrc;
  }
}
