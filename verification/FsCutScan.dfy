/** A store behind the latest element is cut: what registration finds then, and what a walk back from there yields. */
module FsCutScan {
  import opened Bytes
  import opened Words
  import opened Crc16
  import opened Units
  import opened FsTypes
  import opened FsSpec
  import opened FsLog
  import opened FsStore
  import opened FsKeep
  import opened FsWalk
  import opened FsRecovery
  import opened FsPowerCut
  import opened FsCutRuns

  // ---- stepping back undoes stepping on, whatever lies in storage ----

  /** Two records of the same place with the same metadata read the same headers. */
  predicate SameReader(p: Partition, q: Partition) {
    q.firstElementAddress == p.firstElementAddress && q.metadata == p.metadata
  }

  /** Reading a header finds it, and nothing to repair or to refresh. */
  predicate Reads(mem: seq<byte>, pid: u16, p: Partition, a: nat, h: Header) {
    ReadHeader(mem, pid, p, a) == HeaderRead(Success, p, h, [])
  }

  lemma ReadsAlike(mem: seq<byte>, pid: u16, p: Partition, q: Partition, a: nat, h: Header)
    requires Reads(mem, pid, p, a, h) && SameReader(p, q)
    ensures Reads(mem, pid, q, a, h)
  {
    hide DeserializeHeader, DeserializeMetadata, BlobCrc, HeaderLen;
  }

  /** A place where an element may begin, its identifier, its length, and the header that is there. */
  datatype Spot = Spot(address: nat, id: u16, len: u16, header: Header)

  function Behind(pid: u16, p: Partition, s: Spot): nat {
    s.address + FullHeaderLen(pid, p.firstElementAddress, s.address) + s.len
  }

  /** What the forward search knows of a place it has come to. */
  predicate Known(mem: seq<byte>, pid: u16, p: Partition, s: Spot) {
    && Reads(mem, pid, p, s.address, s.header) && s.header.recordId == s.id && IsRecordId(s.id)
    && (s.address == p.firstElementAddress || p.firstElementAddress + FirstLen(pid) <= s.address)
    && (!IsDynamic(pid) ==> s.len == p.metadata.firstElementLen)
    && Behind(pid, p, s) <= PartEnd(p)
  }

  function Here(s: Spot): Iterator { Iterator(s.address, s.len, s.header, true) }

  /** Where the search goes from `s`, if it goes on. */
  function Onward(pid: u16, p: Partition, s: Spot, n: StepRead): Spot {
    Spot(n.address, n.header.recordId, NeighbourLen(pid, p, s.len, n.header.previousXorCurrent), n.header)
  }

  /** A step further on finds a header directly behind, inside the partition. */
  lemma StepsOn(mem: seq<byte>, pid: u16, p: Partition, s: Spot)
    requires Known(mem, pid, p, s) && Stable(mem, pid, p)
    requires var n := NextHeader(mem, pid, p, s.address, s.id, s.len); n.ret == Success && n.address > s.address
    ensures var n := NextHeader(mem, pid, p, s.address, s.id, s.len);
      && n.address == Behind(pid, p, s) && n.header.recordId == IncrementRecordId(s.id)
      && Known(mem, pid, p, Onward(pid, p, s, n))
  {
    StableReads(mem, pid, p, Behind(pid, p, s));
    StableReads(mem, pid, p, p.firstElementAddress);
    hide ReadHeader, Stable, HeaderLen, NeighbourLen, AllFit, SameButMetadata, IncrementRecordId;
    ApplyNothing(mem);
    hide Apply;
  }

  /** The length in front, recovered from the exclusive or that led to the length behind. */
  lemma LenRecovered(pid: u16, p: Partition, len: u16, xor: u16)
    requires !IsDynamic(pid) ==> len == p.metadata.firstElementLen
    ensures NeighbourLen(pid, p, NeighbourLen(pid, p, len, xor), xor) == len
  {
    if IsDynamic(pid) {
      Xor16Twice(len, xor);
    }
    hide Xor16;
  }

  lemma Xor16Twice(a: u16, b: u16)
    ensures Xor16(Xor16(a, b), b) == a
  {
    XorBitsUndo(a, b);
    XorBitsCommutes(b, XorBits(a, b));
  }

  /** The way back from `b` leads to where `a` is. */
  lemma LooksBack(mem: seq<byte>, pid: u16, p: Partition, a: Spot, b: Spot)
    requires Known(mem, pid, p, a) && Known(mem, pid, p, b) && b.address == Behind(pid, p, a)
    requires b.header.recordId == IncrementRecordId(a.id)
    requires NeighbourLen(pid, p, b.len, b.header.previousXorCurrent) == a.len
    ensures PreviousHeader(mem, pid, p, b.address, b.id, b.len) == StepRead(Success, p, a.address, a.header, [])
  {
    DecrementUndoesIncrement(a.id);
    hide ReadHeader, HeaderLen, NeighbourLen, AllFit, SameButMetadata, DecrementRecordId, IncrementRecordId;
    ApplyNothing(mem);
    hide Apply;
  }

  /** So the iterator steps from `b` to `a`. */
  lemma StepsBack(mem: seq<byte>, pid: u16, p: Partition, a: Spot, b: Spot)
    requires Known(mem, pid, p, a) && Known(mem, pid, p, b) && b.address == Behind(pid, p, a) && p.hasFirstElement
    requires b.header.recordId == IncrementRecordId(a.id)
    requires NeighbourLen(pid, p, b.len, b.header.previousXorCurrent) == a.len
    ensures IteratorPrevious(mem, pid, p, Here(b)) == Outcome(Success, p, Here(a), [])
  {
    LooksBack(mem, pid, p, a, b);
    hide ReadHeader, PreviousHeader, NeighbourLen, AllFit, SameButMetadata, IncrementRecordId;
    ApplyNothing(mem);
    assert a.address + HeaderLen(pid) + a.len <= Behind(pid, p, a) <= PartEnd(p);
    hide Apply, HeaderLen;
  }

  lemma KnownAlike(mem: seq<byte>, pid: u16, p: Partition, q: Partition, s: Spot)
    requires Known(mem, pid, p, s) && SameReader(p, q)
    ensures Known(mem, pid, q, s)
  {
    ReadsAlike(mem, pid, p, q, s.address, s.header);
    hide Reads, HeaderLen;
  }

  // ---- the whole search ----

  datatype Trail = Lost | Reached(iter: Iterator)

  /** The iterator after `k` steps back. */
  function Back(mem: seq<byte>, pid: u16, p: Partition, it: Iterator, k: nat): Trail
    decreases k
  {
    hide *;
    if k == 0 then Reached(it)
    else
      match Back(mem, pid, p, it, k - 1)
      case Lost => Lost
      case Reached(here) =>
        var b := IteratorPrevious(mem, pid, p, here);
        if b.ret != Success then Lost else Reached(b.iter)
  }

  lemma NoStep(mem: seq<byte>, pid: u16, p: Partition, it: Iterator)
    ensures Back(mem, pid, p, it, 0) == Reached(it)
  {
  }

  lemma OneMoreStep(mem: seq<byte>, pid: u16, p: Partition, it: Iterator, k: nat, here: Iterator, r: Outcome)
    requires Back(mem, pid, p, it, k) == Reached(here)
    requires IteratorPrevious(mem, pid, p, here) == r && r.ret == Success
    ensures Back(mem, pid, p, it, k + 1) == Reached(r.iter)
  {
    hide IteratorPrevious;
  }

  /** Storage goes on behind the partition for as many bytes as a header has. */
  predicate GoesOn(mem: seq<byte>, pid: u16, p: Partition) {
    Registered(mem, pid, p) && PartEnd(p) + HeaderLen(pid) <= |mem|
  }

  /** With room behind, looking further never fails for want of storage. */
  lemma LooksFurther(mem: seq<byte>, pid: u16, p: Partition, s: Spot)
    requires Known(mem, pid, p, s) && GoesOn(mem, pid, p) && p.firstElementAddress <= s.address
    requires ReadFirst(mem, pid, p).ret == Success && Stable(mem, pid, p)
    ensures var n := NextHeader(mem, pid, p, s.address, s.id, s.len);
      n.ret in {Success, NotFound} && n.part == p && n.writes == [] && (n.ret == Success ==> n.address <= |mem|)
  {
    StableNext(mem, pid, p, s.address, s.id, s.len);
    hide ReadFirst, DeserializeHeader, AllFit, IncrementRecordId, SameButMetadata, Stable, NeighbourLen;
    ApplyNothing(mem);
    hide Apply;
  }

  /** One step of the search. */
  lemma WalkUnfolds(mem: seq<byte>, pid: u16, p: Partition, firstLen: u16, address: nat, id: u16, len: u16)
    requires address <= |mem|
    requires var n := NextHeader(mem, pid, p, address, id, len);
             n.ret in {Success, NotFound} && n.part == p && n.writes == [] && (n.ret == Success ==> n.address <= |mem|)
    ensures var n := NextHeader(mem, pid, p, address, id, len);
            var next := if IsDynamic(pid) then Xor16(len, n.header.previousXorCurrent) else firstLen;
      WalkToLatest(mem, pid, p, firstLen, address, id, len)
      == if n.ret == Success && n.address > address
         then WalkToLatest(mem, pid, p, firstLen, n.address, n.header.recordId, next)
         else Latest(Success, p, address, id, len, [])
  {
    hide NextHeader, Xor16, AllFit, SameButMetadata;
    ApplyNothing(mem);
    hide Apply;
    var n := NextHeader(mem, pid, p, address, id, len);
    if n.ret == Success && n.address > address {
      var next := if IsDynamic(pid) then Xor16(len, n.header.previousXorCurrent) else firstLen;
      var r := WalkToLatest(mem, pid, p, firstLen, n.address, n.header.recordId, next);
      assert [] + r.writes == r.writes;
    }
  }

  /** The records that the search begins with and ends with, and what both read. */
  predicate Searching(mem: seq<byte>, pid: u16, p: Partition, q: Partition) {
    && GoesOn(mem, pid, p) && Stable(mem, pid, p) && ReadFirst(mem, pid, p).ret == Success
    && SameReader(p, q) && q.hasFirstElement
  }

  /**
   * Wherever the search goes from a place it knows, whatever bytes it comes by: it ends, writes nothing, and the iterator
   * steps back from its end to that place, with the length it had there.
   */
  lemma {:induction false} Retraces(mem: seq<byte>, pid: u16, p: Partition, q: Partition, s: Spot) returns (end: Spot, k: nat)
    requires Searching(mem, pid, p, q) && Known(mem, pid, p, s) && p.firstElementAddress <= s.address <= |mem|
    ensures WalkToLatest(mem, pid, p, p.metadata.firstElementLen, s.address, s.id, s.len)
         == Latest(Success, p, end.address, end.id, end.len, [])
    ensures Known(mem, pid, p, end) && (end == s || Behind(pid, p, s) <= end.address)
    ensures Back(mem, pid, q, Here(end), k) == Reached(Here(s))
    decreases |mem| - s.address
  {
    hide *;
    SearchingMeans(mem, pid, p, q);
    LooksFurther(mem, pid, p, s);
    WalkUnfolds(mem, pid, p, p.metadata.firstElementLen, s.address, s.id, s.len);
    var n := NextHeader(mem, pid, p, s.address, s.id, s.len);
    if n.ret == Success && n.address > s.address {
      StepsOn(mem, pid, p, s);
      var t := Onward(pid, p, s, n);
      OnwardIs(pid, p, s, n);
      end, k := Retraces(mem, pid, p, q, t);
      FurtherBehind(pid, p, s, t, end);
      KnownAlike(mem, pid, p, q, s);
      KnownAlike(mem, pid, p, q, t);
      ReturnsTo(mem, pid, p, q, s, t, n);
      StepsBack(mem, pid, q, s, t);
      OneMoreStep(mem, pid, q, Here(end), k, Here(t), IteratorPrevious(mem, pid, q, Here(t)));
      k := k + 1;
    } else {
      end, k := s, 0;
      NoStep(mem, pid, q, Here(s));
    }
  }

  lemma SearchingMeans(mem: seq<byte>, pid: u16, p: Partition, q: Partition)
    requires Searching(mem, pid, p, q)
    ensures GoesOn(mem, pid, p) && Stable(mem, pid, p) && ReadFirst(mem, pid, p).ret == Success
    ensures SameReader(p, q) && q.hasFirstElement
  {
    hide GoesOn, Stable, ReadFirst, SameReader;
  }

  lemma OnwardIs(pid: u16, p: Partition, s: Spot, n: StepRead)
    ensures var t := Onward(pid, p, s, n);
      && t.address == n.address && t.id == n.header.recordId && t.header == n.header
      && t.len == (if IsDynamic(pid) then Xor16(s.len, n.header.previousXorCurrent) else p.metadata.firstElementLen)
  {
    hide Xor16;
  }

  lemma FurtherBehind(pid: u16, p: Partition, s: Spot, t: Spot, end: Spot)
    requires t.address == Behind(pid, p, s) && (end == t || Behind(pid, p, t) <= end.address)
    ensures Behind(pid, p, s) <= end.address
  {
    hide HeaderLen;
  }

  lemma ReturnsTo(mem: seq<byte>, pid: u16, p: Partition, q: Partition, s: Spot, t: Spot, n: StepRead)
    requires SameReader(p, q) && t == Onward(pid, p, s, n) && n.address == Behind(pid, p, s)
    requires n.header.recordId == IncrementRecordId(s.id) && Known(mem, pid, p, s)
    ensures t.address == Behind(pid, q, s) && t.header.recordId == IncrementRecordId(s.id)
    ensures NeighbourLen(pid, q, t.len, t.header.previousXorCurrent) == s.len
  {
    LenRecovered(pid, p, s.len, n.header.previousXorCurrent);
    hide Xor16, HeaderLen, Reads, IncrementRecordId;
  }

  // ---- the lap that was there ----

  /** A lap of elements from the start of the partition on, with anything behind it. */
  predicate LapLies(mem: seq<byte>, pid: u16, p: Partition, chain: seq<Elem>) {
    && Registered(mem, pid, p) && chain != []
    && LiesFirst(mem, pid, p, chain[0]) && AllLie(mem, pid, p.firstElementAddress, chain[1..])
    && Linked(pid, p.firstElementAddress, chain) && End(pid, p.firstElementAddress, Last(chain)) <= PartEnd(p)
    && (!IsDynamic(pid) ==> AllOfLen(chain, p.metadata.firstElementLen))
  }

  function SpotOf(pid: u16, e: Elem): Spot
    requires |e.data| < 0x1_0000
  {
    Spot(e.address, e.id, |e.data|, Kept(pid, ElemHeader(e)))
  }

  lemma LapReads(mem: seq<byte>, pid: u16, p: Partition, chain: seq<Elem>, i: nat)
    requires LapLies(mem, pid, p, chain) && i < |chain|
    ensures Readback(mem, pid, p, chain[i]) && |chain[i].data| < 0x1_0000
    ensures p.firstElementAddress <= chain[i].address <= |mem| && (i > 0 ==> p.firstElementAddress < chain[i].address)
    ensures chain[i].address == p.firstElementAddress || p.firstElementAddress + FirstLen(pid) <= chain[i].address
    ensures !IsDynamic(pid) ==> |chain[i].data| == p.metadata.firstElementLen
    ensures WellFormed(chain[i]) && chain[0].address == p.firstElementAddress
  {
    hide LiesFirst, Lies, Follows, Readback, WellFormed;
    LinkedBounds(pid, p.firstElementAddress, chain);
    AtStart(mem, pid, p, chain[0]);
    if i == 0 {
      FirstReadback(mem, pid, p, chain[0]);
    } else {
      assert chain[i] == chain[1..][i - 1];
      LinkedGrows(pid, p.firstElementAddress, chain, 0, i);
      ElemReadback(mem, pid, p, chain[i]);
    }
    ReadbackSize(mem, pid, p, chain[i]);
    ReadbackForm(mem, pid, p, chain[i]);
  }

  lemma AtStart(mem: seq<byte>, pid: u16, p: Partition, e: Elem)
    requires LiesFirst(mem, pid, p, e)
    ensures e.address == p.firstElementAddress
  {
  }

  lemma ReadbackForm(mem: seq<byte>, pid: u16, p: Partition, e: Elem)
    requires Readback(mem, pid, p, e)
    ensures WellFormed(e)
  {
  }

  /** The search knows every element of the lap. */
  lemma LapKnown(mem: seq<byte>, pid: u16, p: Partition, chain: seq<Elem>, i: nat)
    requires LapLies(mem, pid, p, chain) && i < |chain|
    ensures |chain[i].data| < 0x1_0000 && Known(mem, pid, p, SpotOf(pid, chain[i]))
    ensures Behind(pid, p, SpotOf(pid, chain[i])) == End(pid, p.firstElementAddress, chain[i])
  {
    hide *;
    LapReads(mem, pid, p, chain, i);
    ReadbackKnown(mem, pid, p, chain[i]);
  }

  lemma ReadbackKnown(mem: seq<byte>, pid: u16, p: Partition, e: Elem)
    requires Readback(mem, pid, p, e) && |e.data| < 0x1_0000
    requires e.address == p.firstElementAddress || p.firstElementAddress + FirstLen(pid) <= e.address
    requires !IsDynamic(pid) ==> |e.data| == p.metadata.firstElementLen
    ensures Known(mem, pid, p, SpotOf(pid, e)) && Behind(pid, p, SpotOf(pid, e)) == End(pid, p.firstElementAddress, e)
  {
    hide ReadHeader, HeaderLen, Checksum, Holds;
  }

  lemma LapNeighbours(mem: seq<byte>, pid: u16, p: Partition, chain: seq<Elem>, i: nat)
    requires LapLies(mem, pid, p, chain) && i + 1 < |chain|
    ensures LeadsOn(mem, pid, p, chain[i], chain[i + 1]) && LeadsBack(mem, pid, p, chain[i], chain[i + 1])
    ensures Succeeds(chain[i], chain[i + 1]) && chain[i].address < chain[i + 1].address
  {
    assert Follows(pid, p.firstElementAddress, chain[i], chain[i + 1]);
    LinkedGrows(pid, p.firstElementAddress, chain, i, i + 1);
    LapReads(mem, pid, p, chain, i);
    LapReads(mem, pid, p, chain, i + 1);
    hide LapLies, Readback, LeadsOn, LeadsBack, WellFormed, HeaderLen, Succeeds;
    LeadsOnInLap(mem, pid, p, chain[i], chain[i + 1]);
    LeadsBackInLap(mem, pid, p, chain[i], chain[i + 1]);
  }

  /** The search goes along the lap to its last element. */
  lemma {:induction false} SearchPasses(mem: seq<byte>, pid: u16, p: Partition, chain: seq<Elem>, i: nat)
    requires LapLies(mem, pid, p, chain) && i < |chain|
    ensures |chain[i].data| < 0x1_0000 && |Last(chain).data| < 0x1_0000
    ensures chain[i].address <= |mem| && Last(chain).address <= |mem|
    ensures WalkToLatest(mem, pid, p, p.metadata.firstElementLen, chain[i].address, chain[i].id, |chain[i].data|)
         == WalkToLatest(mem, pid, p, p.metadata.firstElementLen, Last(chain).address, Last(chain).id, |Last(chain).data|)
    decreases |chain| - i
  {
    hide *;
    LapReads(mem, pid, p, chain, i);
    LapReads(mem, pid, p, chain, |chain| - 1);
    LastOf(chain);
    if i + 1 < |chain| {
      LapReads(mem, pid, p, chain, i + 1);
      LapNeighbours(mem, pid, p, chain, i);
      StepAlong(mem, pid, p, chain[i], chain[i + 1]);
      WalkUnfolds(mem, pid, p, p.metadata.firstElementLen, chain[i].address, chain[i].id, |chain[i].data|);
      SearchPasses(mem, pid, p, chain, i + 1);
    }
  }

  lemma LastOf(chain: seq<Elem>)
    requires chain != []
    ensures Last(chain) == chain[|chain| - 1]
  {
  }

  lemma StepAlong(mem: seq<byte>, pid: u16, p: Partition, a: Elem, b: Elem)
    requires LeadsOn(mem, pid, p, a, b) && a.address < b.address <= |mem|
    ensures |a.data| < 0x1_0000 && |b.data| < 0x1_0000
    ensures var n := NextHeader(mem, pid, p, a.address, a.id, |a.data|);
      && n.ret == Success && n.part == p && n.writes == [] && n.address == b.address && n.header.recordId == b.id
      && (if IsDynamic(pid) then Xor16(|a.data|, n.header.previousXorCurrent) else p.metadata.firstElementLen) == |b.data|
  {
    hide NextHeader, Readback, Xor16, Checksum, IncrementRecordId;
    LenAfter(pid, p, a, b);
  }

  /** Walking back along the lap yields its newest payloads. */
  lemma {:induction false} LapWalk(mem: seq<byte>, pid: u16, p: Partition, chain: seq<Elem>, i: nat, n: nat)
    requires LapLies(mem, pid, p, chain) && p.hasFirstElement && i < |chain| && n <= i + 1
    ensures |chain[i].data| < 0x1_0000
    ensures WalkBack(mem, pid, p, At(pid, chain[i]), n) == Newest(chain[..i + 1], n)
    decreases n
  {
    hide *;
    LapReads(mem, pid, p, chain, i);
    RegisteredLap(mem, pid, p, chain);
    NewestStep(chain, i, n);
    if n == 0 {
      NoWalk(mem, pid, p, At(pid, chain[i]));
    } else {
      ReadAt(mem, pid, p, chain[i]);
      WalkOne(mem, pid, p, chain[i], n);
      if i > 0 {
        LapNeighbours(mem, pid, p, chain, i - 1);
        PreviousMoves(mem, pid, p, chain[i - 1], chain[i]);
        LapWalk(mem, pid, p, chain, i - 1, n - 1);
      } else {
        NewestStep(chain, 0, n - 1);
        NothingMore(mem, pid, p, IteratorPrevious(mem, pid, p, At(pid, chain[i])));
      }
    }
  }

  lemma RegisteredLap(mem: seq<byte>, pid: u16, p: Partition, chain: seq<Elem>)
    requires LapLies(mem, pid, p, chain)
    ensures PartEnd(p) <= |mem|
  {
    hide LiesFirst, AllLie, Linked, HeaderLen;
  }

  lemma NothingMore(mem: seq<byte>, pid: u16, p: Partition, b: Outcome)
    ensures WalkBack(mem, pid, p, b.iter, 0) == []
  {
  }

  lemma WalkOne(mem: seq<byte>, pid: u16, p: Partition, e: Elem, n: nat)
    requires n > 0 && |e.data| < 0x1_0000
    requires IteratorRead(mem, pid, p, At(pid, e)) == ElementRead(Outcome(Success, p, At(pid, e), []), e.data, e.id)
    ensures var b := IteratorPrevious(mem, pid, p, At(pid, e));
      WalkBack(mem, pid, p, At(pid, e), n)
      == [(e.id, e.data)] + (if b.ret != Success then [] else WalkBack(mem, pid, p, b.iter, n - 1))
  {
    hide IteratorRead, IteratorPrevious, At;
  }

  // ---- registering after the cut ----

  /** What is promised of a registration that finds the lap, with anything behind it. */
  ghost predicate Recovers(mem: seq<byte>, pid: u16, r: Scanned, chain: seq<Elem>, it: Iterator, k: nat)
    requires chain != [] && |Last(chain).data| < 0x1_0000
  {
    var start, last := r.part.firstElementAddress, Last(chain);
    var init := IteratorInit(mem, pid, r.part, it);
    && r.ret == Success && r.writes == [] && r.part.hasFirstElement
    && (r.part.latestElementAddress == last.address || End(pid, start, last) <= r.part.latestElementAddress)
    && init.ret == Success && init.writes == []
    && Back(mem, pid, r.part, init.iter, k) == Reached(At(pid, last))
    && WalksLap(mem, pid, r.part, chain)
  }

  /** From the last element of the lap, walks of every length up to that of the lap yield its newest elements. */
  ghost predicate WalksLap(mem: seq<byte>, pid: u16, p: Partition, chain: seq<Elem>)
    requires chain != [] && |Last(chain).data| < 0x1_0000
  {
    forall n: nat :: n <= |chain| ==> WalkBack(mem, pid, p, At(pid, Last(chain)), n) == Newest(chain, n)
  }

  lemma LapOfRecord(mem: seq<byte>, pid: u16, p: Partition, q: Partition, chain: seq<Elem>)
    requires LapLies(mem, pid, p, chain) && SameReader(p, q)
    ensures LapLies(mem, pid, q, chain)
  {
    hide AllLie, Linked, Sealed, FirstBlob;
  }

  /** The scan of storage that holds the lap, in terms of the search. */
  lemma ScanUnfolds(mem: seq<byte>, pid: u16, p: Partition, chain: seq<Elem>, blank: Partition, end: Spot)
    requires LapLies(mem, pid, p, chain) && SameRequest(pid, p, blank) && |chain[0].data| < 0x1_0000 && chain[0].address <= |mem|
    requires var q := blank.(metadata := p.metadata);
             WalkToLatest(mem, pid, q, p.metadata.firstElementLen, chain[0].address, chain[0].id, |chain[0].data|)
             == Latest(Success, q, end.address, end.id, end.len, [])
    ensures Scan(mem, pid, blank)
         == Scanned(Success,
                    blank.(metadata := p.metadata, hasFirstElement := true, latestElementAddress := end.address,
                           latestRecordId := end.id, latestElementLen := end.len),
                    [])
  {
    var q := blank.(metadata := p.metadata);
    FreshFindsFirst(mem, pid, p, blank, chain[0]);
    LapOfRecord(mem, pid, p, q, chain);
    FirstIs(mem, pid, p, chain);
    LapReads(mem, pid, q, chain, 0);
    FirstReads(mem, pid, q, chain[0]);
    hide LapLies, Readback, WalkToLatest, ReadFirst, AllFit, SameButMetadata, SameRequest, Checksum;
    ApplyNothing(mem);
    hide Apply;
  }

  lemma FirstIs(mem: seq<byte>, pid: u16, p: Partition, chain: seq<Elem>)
    requires LapLies(mem, pid, p, chain)
    ensures chain != [] && p.metadata.firstElementLen == |chain[0].data| && chain[0].address == p.firstElementAddress
  {
    hide AllLie, Linked, Sealed, FirstBlob;
  }

  /** What the search has to be told about the record that a fresh one turns into. */
  lemma LapSearch(mem: seq<byte>, pid: u16, p: Partition, chain: seq<Elem>, q: Partition)
    requires LapLies(mem, pid, p, chain) && GoesOn(mem, pid, p) && SameReader(p, q)
    ensures LapLies(mem, pid, q, chain) && forall t: Partition :: SameReader(q, t) && t.hasFirstElement ==> Searching(mem, pid, q, t)
  {
    LapOfRecord(mem, pid, p, q, chain);
    FirstLies(mem, pid, q, chain);
    ReadFirstElem(mem, pid, q, chain[0]);
    hide LapLies, ReadFirst, LiesFirst, Kept, ElemHeader;
  }

  lemma FirstLies(mem: seq<byte>, pid: u16, p: Partition, chain: seq<Elem>)
    requires LapLies(mem, pid, p, chain)
    ensures chain != [] && Registered(mem, pid, p) && LiesFirst(mem, pid, p, chain[0])
  {
    hide LiesFirst, AllLie, Linked, Registered;
  }

  /**
   * Registering a partition whose lap lies in storage, with any bytes behind it: the registration succeeds and writes
   * nothing; it ends at the last element of the lap, or behind it; and from where it ends, the iterator steps back to the
   * last element of the lap, and from there walks back along all of it.
   */
  lemma LapRecovers(mem: seq<byte>, pid: u16, p: Partition, chain: seq<Elem>, blank: Partition, it: Iterator) returns (k: nat)
    requires LapLies(mem, pid, p, chain) && SameRequest(pid, p, blank) && GoesOn(mem, pid, p)
    ensures chain != [] && |Last(chain).data| < 0x1_0000
    ensures Recovers(mem, pid, Scan(mem, pid, blank), chain, it, k)
  {
    var q := blank.(metadata := p.metadata);
    var t0 := q.(hasFirstElement := true);
    assert SameReader(p, q) && SameReader(q, t0);
    hide *;
    FirstIs(mem, pid, p, chain);
    LastOf(chain);
    LapSearch(mem, pid, p, chain, q);
    LapReads(mem, pid, q, chain, 0);
    LapReads(mem, pid, q, chain, |chain| - 1);
    SearchPasses(mem, pid, q, chain, 0);
    LapKnown(mem, pid, q, chain, |chain| - 1);
    var s := SpotOf(pid, Last(chain));
    var end, k0 := Retraces(mem, pid, q, t0, s);
    ScanUnfolds(mem, pid, p, chain, blank, end);
    var t := Scan(mem, pid, blank).part;
    var end';
    end', k := Retraces(mem, pid, q, t, s);
    KnownAlike(mem, pid, q, t, end);
    RecoversFrom(mem, pid, p, q, t, chain, it, s, end, k, blank);
  }

  lemma RecoversFrom(mem: seq<byte>, pid: u16, p: Partition, q: Partition, t: Partition, chain: seq<Elem>, it: Iterator, s: Spot,
                     end: Spot, k: nat, blank: Partition)
    requires LapLies(mem, pid, q, chain) && SameReader(q, t) && t.hasFirstElement && |Last(chain).data| < 0x1_0000
    requires Scan(mem, pid, blank) == Scanned(Success, t, []) && t.latestElementAddress == end.address
    requires s == SpotOf(pid, Last(chain)) && (end == s || Behind(pid, q, s) <= end.address)
    requires IteratorInit(mem, pid, t, it) == Outcome(Success, t, Here(end), [])
    requires Back(mem, pid, t, Here(end), k) == Reached(Here(s))
    ensures Recovers(mem, pid, Scan(mem, pid, blank), chain, it, k)
  {
    LapOfRecord(mem, pid, q, t, chain);
    LapKnown(mem, pid, q, chain, |chain| - 1);
    AllWalks(mem, pid, t, chain);
    hide LapLies, Scan, IteratorInit, WalksLap, At, SpotOf, Here, Behind, HeaderLen, Known;
  }

  lemma AllWalks(mem: seq<byte>, pid: u16, p: Partition, chain: seq<Elem>)
    requires LapLies(mem, pid, p, chain) && p.hasFirstElement && chain != [] && |Last(chain).data| < 0x1_0000
    ensures WalksLap(mem, pid, p, chain)
  {
    hide LapLies, WalkBack, Newest, At;
    assert chain[..|chain|] == chain;
    forall n: nat | n <= |chain| ensures WalkBack(mem, pid, p, At(pid, Last(chain)), n) == Newest(chain, n) {
      LapWalk(mem, pid, p, chain, |chain| - 1, n);
    }
  }

  /**
   * A store behind the latest element is cut anywhere. If storage goes on behind the partition, the next registration
   * loses no element of the lap: it ends at the old latest element or where the new one was to go, or further on, and
   * walking back from there yields the whole lap that was there.
   */
  lemma CutAppendRecovers(g: Geometry, mem: seq<byte>, pid: u16, p: Partition, it: Iterator, place: Place, e: Elem, log: Log,
                          mem': seq<byte>, blank: Partition, it': Iterator) returns (k: nat)
    requires Committing(g, mem, pid, p, place, e) && LogInv(mem, pid, p, log)
    requires e.address == End(pid, p.firstElementAddress, Last(log.chain))
    requires Placed(mem, pid, p) && Cut(mem, Commit(g, mem, pid, p, it, place, e).writes, mem', pid, p)
    requires SameRequest(pid, p, blank) && GoesOn(mem, pid, p)
    ensures |Last(log.chain).data| < 0x1_0000
    ensures Recovers(mem', pid, Scan(mem', pid, blank), log.chain, it', k)
  {
    hide *;
    CutKeepsElements(g, mem, pid, p, it, place, e, log, mem');
    LapStillLies(mem, mem', pid, p, log);
    k := LapRecovers(mem', pid, p, log.chain, blank, it');
  }

  lemma LapStillLies(mem: seq<byte>, mem': seq<byte>, pid: u16, p: Partition, log: Log)
    requires LogInv(mem, pid, p, log) && GoesOn(mem, pid, p) && |mem'| == |mem|
    requires LiesFirst(mem', pid, p, log.chain[0]) && AllLie(mem', pid, p.firstElementAddress, log.chain[1..])
    ensures LapLies(mem', pid, p, log.chain) && GoesOn(mem', pid, p)
  {
    hide LiesFirst, AllLie, Linked, NoNext, OlderInv;
    RegisteredIn(mem, mem', pid, p);
    hide Registered, HeaderLen;
  }
}
