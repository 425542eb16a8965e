/** What a partition holds, in terms of the payloads that were stored in it. */
module FsHistory {
  import opened Bytes
  import opened Words
  import opened Crc16
  import opened Units
  import opened FsTypes
  import opened FsSpec
  import opened FsLog
  import opened FsStore
  import opened FsKeep
  import opened FsClear
  import opened FsWalk
  import opened FsRing
  import opened FsRingWalk
  import opened FsRingExact
  import opened FsRecovery
  import opened FsIterator

  function Payloads(s: seq<Elem>): (r: seq<seq<byte>>)
    ensures |r| == |s| && forall i :: 0 <= i < |s| ==> r[i] == s[i].data
  {
    seq(|s|, i requires 0 <= i < |s| => s[i].data)
  }

  /** `r` is what `hist` ends with. */
  predicate EndsWith(hist: seq<seq<byte>>, r: seq<seq<byte>>) {
    |r| <= |hist| && r == hist[|hist| - |r|..]
  }

  // ---- laps ----

  /** Bytes that the metadata and the elements of a lap take up. */
  function Used(pid: u16, lap: seq<seq<byte>>): nat {
    if lap == [] then METADATA_SIZE else Used(pid, lap[..|lap| - 1]) + HeaderLen(pid) + |lap[|lap| - 1]|
  }

  /** The payloads since the last wrap, computed from nothing but lengths: a payload that does not fit begins a new lap. */
  function LapOf(pid: u16, size: nat, hist: seq<seq<byte>>): seq<seq<byte>> {
    if hist == [] then []
    else
      var lap, d := LapOf(pid, size, hist[..|hist| - 1]), hist[|hist| - 1];
      if lap != [] && Used(pid, lap) + HeaderLen(pid) + |d| <= size then lap + [d] else [d]
  }

  /** The current lap of the log is the one the lengths say. */
  predicate HoldsLap(pid: u16, p: Partition, log: Log, hist: seq<seq<byte>>) {
    Payloads(log.chain) == LapOf(pid, p.metadata.partitionSize, hist)
  }

  lemma {:induction false} UsedByChain(pid: u16, start: nat, chain: seq<Elem>)
    requires chain != [] && Linked(pid, start, chain) && chain[0].address == start
    ensures End(pid, start, Last(chain)) == start + Used(pid, Payloads(chain))
    decreases |chain|
  {
    hide HeaderLen, Succeeds;
    var n := |chain| - 1;
    assert Payloads(chain)[..n] == Payloads(chain[..n]);
    if n == 0 {
      assert Used(pid, Payloads(chain)[..n]) == METADATA_SIZE;
    } else {
      UsedByChain(pid, start, chain[..n]);
      assert Follows(pid, start, chain[n - 1], chain[n]);
      LinkedGrows(pid, start, chain, 0, n);
    }
  }

  /** A store goes behind the lap or begins a new one, as the lengths say. */
  lemma LapGrows(mem: seq<byte>, pid: u16, p: Partition, log: Log, hist: seq<seq<byte>>, data: seq<byte>, len: u16, reach: nat)
    requires PartInv(mem, pid, p, log) && EffectiveLen(pid, p, len) <= |data|
    requires (hist == [] <==> log.chain == []) && HoldsLap(pid, p, log, hist)
    ensures var e := StoredElem(pid, p, data, len);
            HoldsLap(pid, p, AfterStore(pid, p.firstElementAddress, log, e, reach), hist + [e.data])
  {
    var e := StoredElem(pid, p, data, len);
    hide PartInv, Placement, AfterStore, HeaderLen, Used, LapOf, Payloads;
    PlaceOfLap(mem, pid, p, log, EffectiveLen(pid, p, len));
    ChainAfter(pid, p.firstElementAddress, log, e, reach);
    PayloadsSnoc(log.chain, e);
    LapSnoc(pid, p.metadata.partitionSize, hist, e.data);
  }

  lemma LapSnoc(pid: u16, size: nat, hist: seq<seq<byte>>, d: seq<byte>)
    ensures var lap := LapOf(pid, size, hist);
            LapOf(pid, size, hist + [d])
            == if lap != [] && Used(pid, lap) + HeaderLen(pid) + |d| <= size then lap + [d] else [d]
  {
    hide Used, HeaderLen;
    assert (hist + [d])[..|hist|] == hist;
  }

  lemma PayloadsSnoc(s: seq<Elem>, e: Elem)
    ensures Payloads(s + [e]) == Payloads(s) + [e.data] && Payloads([e]) == [e.data]
    ensures |Payloads(s)| == |s|
  {
  }

  lemma ChainAfter(pid: u16, start: nat, log: Log, e: Elem, reach: nat)
    ensures AfterStore(pid, start, log, e, reach).chain == if e.address == start then [e] else log.chain + [e]
  {
    hide From, End;
  }

  lemma PlaceOfLap(mem: seq<byte>, pid: u16, p: Partition, log: Log, n: u16)
    requires PartInv(mem, pid, p, log)
    ensures var lap := Payloads(log.chain);
      Placement(pid, p, n).address == p.firstElementAddress
      <==> !(log.chain != [] && Used(pid, lap) + HeaderLen(pid) + n <= p.metadata.partitionSize)
  {
    if log.chain != [] {
      ChainInBounds(mem, pid, p, log.chain);
      UsedByChain(pid, p.firstElementAddress, log.chain);
      hide Used, LiesFirst, AllLie, Linked, EndsLap, OlderInv, HeaderLen, Registered, Payloads;
    }
  }

  lemma LapOfRecord(pid: u16, p: Partition, q: Partition, log: Log, hist: seq<seq<byte>>)
    requires q.metadata.partitionSize == p.metadata.partitionSize && HoldsLap(pid, p, log, hist)
    ensures HoldsLap(pid, q, log, hist)
  {
    hide LapOf, Payloads;
  }

  lemma NoLap(pid: u16, p: Partition)
    ensures HoldsLap(pid, p, EMPTY_LOG, [])
  {
  }

  // ---- the history ----

  /** The log against `hist`, the payloads stored since the partition was last cleared or found empty, oldest first. */
  predicate HistoryInv(pid: u16, p: Partition, log: Log, hist: seq<seq<byte>>) {
    && (hist == [] <==> log.chain == [])
    && EndsWith(hist, Payloads(All(log)))
    && HoldsLap(pid, p, log, hist)
    && (!IsDynamic(pid) ==> Slots(pid, p) > 0)
    && (!IsDynamic(pid) && hist != [] ==> RingInv(pid, p, log, |hist|))
  }

  predicate PartHolds(mem: seq<byte>, pid: u16, p: Partition, log: Log, hist: seq<seq<byte>>) {
    PartInv(mem, pid, p, log) && HistoryInv(pid, p, log, hist)
  }

  // ---- storing ----

  lemma EndsWithMore(hist: seq<seq<byte>>, s: seq<Elem>, d: nat, e: Elem)
    requires EndsWith(hist, Payloads(s)) && d <= |s|
    ensures EndsWith(hist + [e.data], Payloads(s[d..] + [e]))
  {
  }

  /** What the log holds after a store is the end of what it held before, and the new element. */
  lemma AfterStoreIsSuffix(pid: u16, start: nat, log: Log, e: Elem, reach: nat) returns (d: nat)
    ensures d <= |All(log)| && All(AfterStore(pid, start, log, e, reach)) == All(log)[d..] + [e]
  {
    hide From, End;
    if e.address == start {
      var r := From(log.chain, reach);
      d := |All(log)| - |r|;
      assert All(log)[d..] == r;
    } else {
      var r := From(log.older, reach);
      d := |log.older| - |r|;
      assert All(log)[d..] == r + log.chain;
    }
  }

  /** The RAM record a successful store leaves. */
  lemma StoreRecord(g: Geometry, mem: seq<byte>, pid: u16, p: Partition, it: Iterator, data: seq<byte>, len: u16, log: Log)
    requires CanStore(g, mem, pid, p, data, len) && PartInv(mem, pid, p, log)
    requires StoreElement(g, mem, pid, p, it, data, len).ret == Success
    ensures var r := StoreElement(g, mem, pid, p, it, data, len);
            var e := StoredElem(pid, p, data, len);
            && (!IsDynamic(pid) ==> |e.data| == p.metadata.firstElementLen)
            && RecordOf(pid, p, r.part, e)
  {
    var e := StoredElem(pid, p, data, len);
    var r := StoreElement(g, mem, pid, p, it, data, len);
    var place := Placement(pid, p, |e.data|);
    PartIsStable(mem, pid, p, log);
    StoredElemContinues(mem, pid, p, data, len, log);
    StoreUnfolds(g, mem, pid, p, it, data, len);
    hide StoreElement, PartInv, Stable, Registered, ClearOf, CanStore, Readable, AllFit;
    RecordOfHeader(pid, p, place, e);
    hide Placement, WithHeader, CommitBackup, HeadBytes, StoreWrites, RecordOf;
  }

  lemma RecordOfHeader(pid: u16, p: Partition, place: Place, e: Elem)
    requires |e.data| < 0x1_0000 && place.address == e.address && p.metadata.partitionId == pid
    requires !IsDynamic(pid) ==> |e.data| == p.metadata.firstElementLen
    ensures RecordOf(pid, p, WithHeader(pid, p, place, e.data), e)
  {
    hide FirstBlob, BlobCrc, Checksum;
  }

  lemma StaticRingStarts(mem: seq<byte>, pid: u16, p: Partition, q: Partition, e: Elem, reach: nat)
    requires PartInv(mem, pid, p, EMPTY_LOG) && !IsDynamic(pid) && Slots(pid, p) > 0 && RecordOf(pid, p, q, e)
    requires e.address == p.firstElementAddress
    ensures RingInv(pid, q, AfterStore(pid, p.firstElementAddress, EMPTY_LOG, e, reach), 1)
  {
    hide Slots, RecordOf, AfterStore, RingInv, Registered, ReadFirst;
    RingStarts(pid, p, q, e, reach);
  }

  /** The ring goes on with every successful store. */
  lemma RingGoesOn(g: Geometry, mem: seq<byte>, pid: u16, p: Partition, it: Iterator, data: seq<byte>, len: u16, log: Log,
                   hist: seq<seq<byte>>)
    requires CanStore(g, mem, pid, p, data, len) && PartInv(mem, pid, p, log) && HistoryInv(pid, p, log, hist)
    requires StoreElement(g, mem, pid, p, it, data, len).ret == Success && !IsDynamic(pid)
    ensures var r := StoreElement(g, mem, pid, p, it, data, len);
            var e := StoredElem(pid, p, data, len);
            RingInv(pid, r.part, AfterStore(pid, p.firstElementAddress, log, e, Reach(mem, pid, p, e)), |hist| + 1)
  {
    var e := StoredElem(pid, p, data, len);
    var r := StoreElement(g, mem, pid, p, it, data, len);
    StoreRecord(g, mem, pid, p, it, data, len, log);
    StoreChanges(g, mem, pid, p, it, data, len, log);
    hide StoreElement, RecordOf, StoreChanged, Slots, WellFormed, Reach, AfterStore, RingInv, LogInv, CanStore, Succeeds, EmptyInv,
      EndsWith, SlotAddress, Position;
    if log.chain == [] {
      assert log == EMPTY_LOG;
      StaticRingStarts(mem, pid, p, r.part, e, Reach(mem, pid, p, e));
    } else {
      RingElem(mem, pid, p, log, |hist|, data, len);
      RingGrows(mem, pid, p, r.part, log, e, |hist|);
    }
  }

  lemma SameSlots(pid: u16, p: Partition, q: Partition, e: Elem)
    requires RecordOf(pid, p, q, e) && !IsDynamic(pid)
    ensures Slots(pid, q) == Slots(pid, p)
  {
    SlotsOfShape(pid, p, q);
  }

  lemma HistoryGrows(pid: u16, p: Partition, q: Partition, log: Log, hist: seq<seq<byte>>, e: Elem, reach: nat)
    requires HistoryInv(pid, p, log, hist) && RecordOf(pid, p, q, e)
    requires var log' := AfterStore(pid, p.firstElementAddress, log, e, reach);
      && log'.chain != [] && (!IsDynamic(pid) ==> RingInv(pid, q, log', |hist| + 1))
      && HoldsLap(pid, p, log', hist + [e.data])
    ensures HistoryInv(pid, q, AfterStore(pid, p.firstElementAddress, log, e, reach), hist + [e.data])
  {
    LapOfRecord(pid, p, q, AfterStore(pid, p.firstElementAddress, log, e, reach), hist + [e.data]);
    hide HoldsLap, RingInv, AfterStore, Slots, RecordOf, All, EndsWith, LapOf, Payloads;
    var d := AfterStoreIsSuffix(pid, p.firstElementAddress, log, e, reach);
    EndsWithMore(hist, All(log), d, e);
    if !IsDynamic(pid) {
      SameSlots(pid, p, q, e);
    }
  }

  lemma SuccessAppends(g: Geometry, mem: seq<byte>, pid: u16, p: Partition, it: Iterator, data: seq<byte>, len: u16, log: Log,
                       hist: seq<seq<byte>>)
    requires CanStore(g, mem, pid, p, data, len) && PartInv(mem, pid, p, log) && HistoryInv(pid, p, log, hist)
    requires StoreElement(g, mem, pid, p, it, data, len).ret == Success
    ensures var r := StoreElement(g, mem, pid, p, it, data, len);
            var e := StoredElem(pid, p, data, len);
            var log' := AfterStore(pid, p.firstElementAddress, log, e, Reach(mem, pid, p, e));
            PartInv(Apply(mem, r.writes), pid, r.part, log') && HistoryInv(pid, r.part, log', hist + [e.data])
  {
    var e := StoredElem(pid, p, data, len);
    var r := StoreElement(g, mem, pid, p, it, data, len);
    hide *;
    StoreKeeps(g, mem, pid, p, it, data, len, log);
    StoreRecord(g, mem, pid, p, it, data, len, log);
    ChainNotEmpty(pid, p.firstElementAddress, log, e, Reach(mem, pid, p, e));
    if !IsDynamic(pid) {
      RingGoesOn(g, mem, pid, p, it, data, len, log, hist);
    }
    LapGrows(mem, pid, p, log, hist, data, len, Reach(mem, pid, p, e));
    HistoryGrows(pid, p, r.part, log, hist, e, Reach(mem, pid, p, e));
  }

  lemma FailureKeeps(g: Geometry, mem: seq<byte>, pid: u16, p: Partition, it: Iterator, data: seq<byte>, len: u16, log: Log)
    requires CanStore(g, mem, pid, p, data, len) && PartInv(mem, pid, p, log)
    requires StoreElement(g, mem, pid, p, it, data, len).ret != Success
    ensures var r := StoreElement(g, mem, pid, p, it, data, len); r.writes == [] && r.part == p
  {
    hide StoreElement, PartInv, Stable, Registered, ByteUnits, TotalSize, Placement, CommitElement, ClearOf;
    PartIsStable(mem, pid, p, log);
    StoredElemContinues(mem, pid, p, data, len, log);
    StoreUnfolds(g, mem, pid, p, it, data, len);
  }

  /** A successful store appends its payload to what the partition holds; an unsuccessful one changes nothing. */
  lemma StoreAppends(g: Geometry, mem: seq<byte>, pid: u16, p: Partition, it: Iterator, data: seq<byte>, len: u16, log: Log,
                     hist: seq<seq<byte>>)
    requires CanStore(g, mem, pid, p, data, len) && PartHolds(mem, pid, p, log, hist)
    ensures var r := StoreElement(g, mem, pid, p, it, data, len);
            var e := StoredElem(pid, p, data, len);
      && (len > 0 || IsDynamic(pid) ==> len <= |data| && e.data == data[..len])
      && (len == 0 && !IsDynamic(pid) ==> p.metadata.firstElementLen <= |data| && e.data == data[..p.metadata.firstElementLen])
      && (r.ret != Success ==> r.writes == [] && r.part == p)
      && (r.ret == Success ==>
            PartHolds(Apply(mem, r.writes), pid, r.part,
                      AfterStore(pid, p.firstElementAddress, log, e, Reach(mem, pid, p, e)), hist + [e.data]))
  {
    var r := StoreElement(g, mem, pid, p, it, data, len);
    hide StoreElement, PartInv, HistoryInv, CanStore, AfterStore, Reach, Apply, Placement;
    if r.ret == Success {
      SuccessAppends(g, mem, pid, p, it, data, len, log, hist);
    } else {
      FailureKeeps(g, mem, pid, p, it, data, len, log);
    }
  }

  // ---- clearing, and starting again ----

  lemma ClearForgets(g: Geometry, mem: seq<byte>, pid: u16, p: Partition, it: Iterator, log: Log, hist: seq<seq<byte>>)
    requires ByteUnits(g) && TotalSize(g) == |mem| && PartHolds(mem, pid, p, log, hist)
    ensures Registered(mem, pid, p)
    ensures var r := ClearPartition(g, mem, pid, p, it);
      && r.ret == Success && AllFit(|mem|, r.writes)
      && PartHolds(Apply(mem, r.writes), pid, r.part, EMPTY_LOG, [])
      && r.part.firstElementAddress == p.firstElementAddress && r.part.metadata == p.metadata
  {
    hide ClearPartition, PartInv, Apply, RingInv, Slots, HoldsLap;
    PartIsStable(mem, pid, p, log);
    NoLap(pid, ClearPartition(g, mem, pid, p, it).part);
    ClearEmpties(g, mem, pid, p, it, log);
    var backup := ClearWrites(g, mem, pid, p, it, log);
    assert Slots(pid, p) == Slots(pid, ClearPartition(g, mem, pid, p, it).part) by {
      SlotsOfRecord(pid, p, ClearPartition(g, mem, pid, p, it).part);
    }
  }

  lemma SlotsOfRecord(pid: u16, p: Partition, q: Partition)
    requires q.firstElementAddress == p.firstElementAddress && q.metadata == p.metadata
    ensures Slots(pid, q) == Slots(pid, p) && forall j :: SlotAddress(pid, q, j) == SlotAddress(pid, p, j)
  {
  }

  /** The record registration begins with, when it asks for the same partition again. */
  predicate AskedAgain(pid: u16, p: Partition, blank: Partition) {
    && SameRequest(pid, p, blank) && !blank.hasFirstElement
    && blank.latestElementAddress == blank.firstElementAddress && blank.latestRecordId == 1
  }

  lemma HistoryOfRecord(pid: u16, p: Partition, q: Partition, log: Log, hist: seq<seq<byte>>)
    requires HistoryInv(pid, p, log, hist)
    requires q.firstElementAddress == p.firstElementAddress && q.metadata == p.metadata
    ensures HistoryInv(pid, q, log, hist)
  {
    SlotsOfRecord(pid, p, q);
    LapOfRecord(pid, p, q, log, hist);
    hide HoldsLap, Slots, SlotAddress, OlderCount, Position, EndsWith, Payloads;
  }

  lemma EmptyHistoryOfRecord(pid: u16, p: Partition, q: Partition)
    requires HistoryInv(pid, p, EMPTY_LOG, []) && SameRequest(pid, p, q)
    ensures HistoryInv(pid, q, EMPTY_LOG, [])
  {
    hide RingInv, HoldsLap;
    NoLap(pid, q);
  }

  lemma LogOfRecord(mem: seq<byte>, pid: u16, p: Partition, h: Header, log: Log)
    requires LogInv(mem, pid, p, log)
    ensures LogInv(mem, pid, p.(firstElementHeader := h), log)
  {
    hide LiesFirst, Linked, AllLie, OlderInv, EndsLap;
    var q := p.(firstElementHeader := h);
    ChainOfRecord(mem, pid, p, q, log.chain);
    hide ChainInv;
    if log.older != [] {
      OlderOfRecord(mem, pid, p, q, log.older, log.chain);
    }
  }

  lemma OlderOfRecord(mem: seq<byte>, pid: u16, p: Partition, q: Partition, older: seq<Elem>, chain: seq<Elem>)
    requires older != [] && chain != [] && OlderInv(mem, pid, p, older, chain)
    requires q.firstElementAddress == p.firstElementAddress && q.metadata == p.metadata
    ensures OlderInv(mem, pid, q, older, chain)
  {
    EndsLapOfRecord(mem, pid, p, q, Last(older));
    hide EndsLap, AllLie, Linked;
  }

  /** Registering a partition again, from storage alone, loses nothing of what it holds. */
  lemma RestartRecovers(mem: seq<byte>, pid: u16, p: Partition, log: Log, hist: seq<seq<byte>>, blank: Partition)
    requires PartHolds(mem, pid, p, log, hist) && AskedAgain(pid, p, blank)
    ensures var r := Scan(mem, pid, blank);
      && r.ret == Success && r.writes == []
      && PartHolds(mem, pid, r.part, log, hist)
      && r.part.hasFirstElement == p.hasFirstElement
      && r.part.firstElementAddress == p.firstElementAddress && SameRequest(pid, p, r.part)
      && (p.hasFirstElement ==> r.part == p.(firstElementHeader := blank.firstElementHeader))
  {
    hide LogInv, HistoryInv, Scan, ReadFirst, Registered;
    if log.chain == [] {
      ScanFindsNothing(mem, pid, p, blank);
      EmptyAgain(mem, pid, p, blank);
      NoHistory(pid, p, log, hist);
      EmptyHistoryOfRecord(pid, p, blank.(hasFirstElement := false));
    } else {
      ChainOfLog(mem, pid, p, log);
      ScanRecovers(mem, pid, p, log, blank);
      LogOfRecord(mem, pid, p, blank.firstElementHeader, log);
      HistoryOfRecord(pid, p, p.(firstElementHeader := blank.firstElementHeader), log, hist);
    }
  }

  lemma NoHistory(pid: u16, p: Partition, log: Log, hist: seq<seq<byte>>)
    requires HistoryInv(pid, p, log, hist) && log.chain == []
    ensures hist == []
  {
    hide RingInv;
  }

  lemma EmptyAgain(mem: seq<byte>, pid: u16, p: Partition, blank: Partition)
    requires EmptyInv(mem, pid, p) && AskedAgain(pid, p, blank)
    ensures EmptyInv(mem, pid, blank) && blank == blank.(hasFirstElement := false)
  {
    hide Judge;
    var n, start, swap := FirstLen(pid), p.firstElementAddress, SwapAddress(pid);
    assert start + n <= |mem| && swap + n <= |mem|;
    hide HeaderLen, SwapAddress;
    SameVerdict(pid, p, blank, mem[start..start + n]);
    SameVerdict(pid, p, blank, mem[swap..swap + n]);
  }

  // ---- what a walk finds ----

  /** The last `n` of `hist`, newest first. */
  function NewestOf(hist: seq<seq<byte>>, n: nat): (r: seq<seq<byte>>)
    ensures |r| == Min(n, |hist|)
    ensures forall k :: 0 <= k < |r| ==> r[k] == hist[|hist| - 1 - k]
  {
    seq(Min(n, |hist|), k requires 0 <= k < Min(n, |hist|) => hist[|hist| - 1 - k])
  }

  function DataOf(s: seq<(u16, seq<byte>)>): (r: seq<seq<byte>>)
    ensures |r| == |s| && forall i :: 0 <= i < |s| ==> r[i] == s[i].1
  {
    seq(|s|, i requires 0 <= i < |s| => s[i].1)
  }

  lemma SuffixEnds(hist: seq<seq<byte>>, s: seq<Elem>, d: nat)
    requires d <= |s| && EndsWith(hist, Payloads(s))
    ensures EndsWith(hist, Payloads(s[d..]))
  {
    assert Payloads(s[d..]) == Payloads(s)[d..];
    assert hist[|hist| - |s|..][d..] == hist[|hist| - |s| + d..];
  }

  lemma ReachableIsSuffix(log: Log, hist: seq<seq<byte>>)
    requires EndsWith(hist, Payloads(All(log)))
    ensures EndsWith(hist, Payloads(Reachable(log)))
  {
    hide EndsWith, Payloads;
    var d := |All(log)| - |Reachable(log)|;
    assert Reachable(log) == All(log)[d..];
    SuffixEnds(hist, All(log), d);
  }

  lemma NewestPayloads(s: seq<Elem>, hist: seq<seq<byte>>, m: nat)
    requires EndsWith(hist, Payloads(s))
    ensures DataOf(Newest(s, m)) == NewestOf(hist, Min(m, |s|))
  {
    hide Newest, EndsWith, Payloads, DataOf, NewestOf;
    var a, b := DataOf(Newest(s, m)), NewestOf(hist, Min(m, |s|));
    assert |s| <= |hist| by { PayloadAt(s, hist); }
    assert |a| == |b|;
    forall k | 0 <= k < |a| ensures a[k] == b[k] {
      PayloadAt(s, hist);
      assert s[|s| - 1 - k].data == hist[|hist| - |s| + (|s| - 1 - k)];
    }
  }

  lemma PayloadAt(s: seq<Elem>, hist: seq<seq<byte>>)
    requires EndsWith(hist, Payloads(s))
    ensures |s| <= |hist| && forall j :: 0 <= j < |s| ==> s[j].data == hist[|hist| - |s| + j]
  {
    forall j | 0 <= j < |s| ensures s[j].data == hist[|hist| - |s| + j] {
      assert Payloads(s)[j] == hist[|hist| - |s|..][j];
    }
  }

  /**
   * The payloads a walk back from the latest element of a static partition yields are the ones stored last, newest first,
   * as many as it has slots; then there is nothing more.
   */
  lemma WalkYieldsNewest(mem: seq<byte>, pid: u16, p: Partition, it: Iterator, log: Log, hist: seq<seq<byte>>, m: nat)
    requires PartHolds(mem, pid, p, log, hist) && hist != [] && !IsDynamic(pid)
    requires KeepsAll(Slots(pid, p), |hist|)
    ensures var start := IteratorInit(mem, pid, p, it);
      && start.ret == Success && start.part == p && start.writes == []
      && DataOf(WalkBack(mem, pid, p, start.iter, m)) == NewestOf(hist, Min(m, Slots(pid, p)))
      && WalkEnd(mem, pid, p, start.iter, m) == if m < Min(|hist|, Slots(pid, p)) then Success else NotFound
  {
    hide LogInv, RingInv, IteratorInit, WalkBack, WalkEnd, Slots, EndsWith, Newest, NewestOf, DataOf, Reachable, EmptyInv, KeepsAll,
      HoldsLap;
    RingIsExactIff(mem, pid, p, it, log, |hist|);
    WalkInRing(mem, pid, p, it, log, |hist|, m);
    ReachableIsSuffix(log, hist);
    NewestPayloads(Reachable(log), hist, m);
  }

  /** For every `m`, the walk yields the newest `m` payloads, or as many of them as there are slots. */
  ghost predicate YieldsNewest(mem: seq<byte>, pid: u16, p: Partition, it: Iterator, hist: seq<seq<byte>>) {
    forall m: nat ::
      DataOf(WalkBack(mem, pid, p, IteratorInit(mem, pid, p, it).iter, m)) == NewestOf(hist, Min(m, Slots(pid, p)))
  }

  /** And it yields them exactly in these cases. */
  lemma WalkYieldsNewestIff(mem: seq<byte>, pid: u16, p: Partition, it: Iterator, log: Log, hist: seq<seq<byte>>)
    requires PartHolds(mem, pid, p, log, hist) && hist != [] && !IsDynamic(pid)
    ensures YieldsNewest(mem, pid, p, it, hist) <==> KeepsAll(Slots(pid, p), |hist|)
  {
    hide PartInv, RingInv, IteratorInit, WalkBack, Slots, EndsWith, Reachable, KeepsAll, HoldsLap;
    if KeepsAll(Slots(pid, p), |hist|) {
      forall m: nat
        ensures DataOf(WalkBack(mem, pid, p, IteratorInit(mem, pid, p, it).iter, m)) == NewestOf(hist, Min(m, Slots(pid, p)))
      {
        WalkYieldsNewest(mem, pid, p, it, log, hist, m);
      }
    } else {
      HoldsLog(mem, pid, p, log, hist);
      RingIsExactIff(mem, pid, p, it, log, |hist|);
      assert !WalksExactly(mem, pid, p, it, Slots(pid, p), |hist|);
      var m: nat :| |WalkBack(mem, pid, p, IteratorInit(mem, pid, p, it).iter, m)| != Min(m, Min(|hist|, Slots(pid, p)));
      assert |DataOf(WalkBack(mem, pid, p, IteratorInit(mem, pid, p, it).iter, m))| != |NewestOf(hist, Min(m, Slots(pid, p)))|;
    }
  }

  lemma HoldsLog(mem: seq<byte>, pid: u16, p: Partition, log: Log, hist: seq<seq<byte>>)
    requires PartHolds(mem, pid, p, log, hist) && hist != []
    ensures LogInv(mem, pid, p, log) && (!IsDynamic(pid) ==> RingInv(pid, p, log, |hist|))
  {
    hide LogInv, EmptyInv, RingInv, HoldsLap;
  }

  /** In any partition, the walk that stays within the lap yields the newest payloads. */
  lemma WalkInLapYieldsNewest(mem: seq<byte>, pid: u16, p: Partition, it: Iterator, log: Log, hist: seq<seq<byte>>, m: nat)
    requires PartHolds(mem, pid, p, log, hist) && hist != [] && m <= |Reachable(log)|
    ensures var start := IteratorInit(mem, pid, p, it);
      && start.ret == Success && start.part == p && start.writes == []
      && DataOf(WalkBack(mem, pid, p, start.iter, m)) == NewestOf(hist, m)
  {
    hide LogInv, RingInv, IteratorInit, WalkBack, Slots, EndsWith, Newest, NewestOf, DataOf, Reachable, EmptyInv, At;
    InitAtLatest(mem, pid, p, it, log);
    LastReachable(mem, pid, p, log);
    ReachableIsSuffix(log, hist);
    NewestPayloads(Reachable(log), hist, m);
    WalkFindsReachable(mem, pid, p, log, |Reachable(log)| - 1, m);
  }

  /** The payloads since the last wrap, as the lengths tell, are all within reach. */
  lemma LapIsReachable(mem: seq<byte>, pid: u16, p: Partition, log: Log, hist: seq<seq<byte>>)
    requires PartHolds(mem, pid, p, log, hist)
    ensures |LapOf(pid, p.metadata.partitionSize, hist)| <= |Reachable(log)|
  {
    hide PartInv, LapOf, RingInv, Payloads;
  }

}
