/** A static partition as a ring of equal slots. */
module FsRing {
  import opened Bytes
  import opened Words
  import opened Crc16
  import opened Units
  import opened FsTypes
  import opened FsSpec
  import opened FsLog
  import opened FsStore
  import opened FsKeep
  import opened FsWalk

  /** Bytes an element takes up, the metadata in front of the first one not counted. */
  function SlotSize(pid: u16, p: Partition): (n: nat)
    ensures n >= 2
  {
    HeaderLen(pid) + p.metadata.firstElementLen
  }

  /** How many elements fit into a static partition. */
  function Slots(pid: u16, p: Partition): nat {
    if p.metadata.partitionSize < METADATA_SIZE then 0
    else (p.metadata.partitionSize - METADATA_SIZE) / SlotSize(pid, p)
  }

  /** Where slot `j` begins; the metadata belongs to slot 0. */
  function SlotAddress(pid: u16, p: Partition, j: nat): nat {
    if j == 0 then p.firstElementAddress else p.firstElementAddress + METADATA_SIZE + j * SlotSize(pid, p)
  }

  /** Records of the same place and shape have the same slots. */
  lemma SlotsOfShape(pid: u16, p: Partition, q: Partition)
    requires SameShape(pid, p, q) && !IsDynamic(pid)
    ensures Slots(pid, q) == Slots(pid, p)
    ensures forall j :: SlotAddress(pid, q, j) == SlotAddress(pid, p, j)
  {
  }

  /** An element in slot `j` ends where slot `j + 1` begins. */
  lemma SlotFollows(pid: u16, p: Partition, e: Elem, j: nat)
    requires e.address == SlotAddress(pid, p, j) && |e.data| == p.metadata.firstElementLen
    ensures End(pid, p.firstElementAddress, e) == SlotAddress(pid, p, j + 1)
    ensures SlotAddress(pid, p, j) < SlotAddress(pid, p, j + 1)
  {
    assert (j + 1) * SlotSize(pid, p) == j * SlotSize(pid, p) + SlotSize(pid, p);
    hide HeaderLen;
  }

  lemma SlotsGrow(pid: u16, p: Partition, i: nat, j: nat)
    ensures i < j ==> SlotAddress(pid, p, i) < SlotAddress(pid, p, j)
    ensures SlotAddress(pid, p, i) == SlotAddress(pid, p, j) ==> i == j
    decreases i + j
  {
    hide HeaderLen, SlotSize;
    if i < j {
      MulMonotone(i + 1, j, SlotSize(pid, p));
    } else if j < i {
      MulMonotone(j + 1, i, SlotSize(pid, p));
    }
  }

  /** Slot `j` ends inside the partition exactly if it is one of its slots. */
  lemma SlotFits(pid: u16, p: Partition, j: nat)
    requires METADATA_SIZE <= p.metadata.partitionSize
    ensures SlotAddress(pid, p, j + 1) <= PartEnd(p) <==> j < Slots(pid, p)
  {
    hide HeaderLen, SlotSize;
    var room, slot, n := p.metadata.partitionSize - METADATA_SIZE, SlotSize(pid, p), Slots(pid, p);
    assert room == n * slot + room % slot;
    if j < n {
      MulMonotone(j + 1, n, slot);
    } else {
      MulMonotone(n + 1, j + 1, slot);
    }
  }

  // ---- record identifiers along the ring ----

  lemma IncrementIsAfter(id: u16, n: nat)
    requires IsRecordId(id)
    ensures IncrementRecordId(RecordIdAfter(id, n)) == RecordIdAfter(id, n + 1)
  {
  }

  lemma AfterIsSame(id: u16, n: nat)
    requires IsRecordId(id)
    ensures RecordIdAfter(id, n) == id <==> n % RECORD_IDS == 0
  {
  }

  /** `s` holds elements in the order they were stored. */
  predicate Consecutive(s: seq<Elem>) {
    forall i :: 0 < i < |s| ==> s[i].id == IncrementRecordId(s[i - 1].id)
  }

  lemma {:induction false} IdsAlong(s: seq<Elem>, i: nat)
    requires Consecutive(s) && i < |s| && IsRecordId(s[0].id)
    ensures s[i].id == RecordIdAfter(s[0].id, i)
    decreases i
  {
    hide IncrementRecordId;
    if i > 0 {
      IdsAlong(s, i - 1);
      IncrementIsAfter(s[0].id, i - 1);
    }
  }

  function All(log: Log): seq<Elem> { log.older + log.chain }

  lemma LogConsecutive(mem: seq<byte>, pid: u16, p: Partition, log: Log)
    requires LogInv(mem, pid, p, log)
    ensures Consecutive(All(log)) && forall i :: 0 <= i < |All(log)| ==> WellFormed(All(log)[i])
  {
    hide LiesFirst, NoNext, EndsLap, Registered, IncrementRecordId, End, Xor16, IsRecordId;
    ChainInBounds(mem, pid, p, log.chain);
    var s, k := All(log), |log.older|;
    forall i | 0 <= i < |s| ensures WellFormed(s[i]) {
      if i < k { assert Lies(mem, pid, p.firstElementAddress, log.older[i]); }
    }
    forall i | 0 < i < |s| ensures s[i].id == IncrementRecordId(s[i - 1].id) {
      if i < k {
        assert Follows(pid, p.firstElementAddress, log.older[i - 1], log.older[i]);
      } else if i > k {
        assert Follows(pid, p.firstElementAddress, log.chain[i - k - 1], log.chain[i - k]);
      }
    }
  }

  // ---- the shape of the ring ----

  /** The slot that the `n`-th store goes to. */
  function Position(n: nat, slots: nat): (k: nat)
    requires slots > 0 && n > 0
    ensures k < slots
  {
    (n - 1) % slots
  }

  lemma PositionAdvances(n: nat, slots: nat)
    requires slots > 0 && n > 0
    ensures Position(n + 1, slots) == if Position(n, slots) + 1 == slots then 0 else Position(n, slots) + 1
    ensures n <= slots ==> Position(n, slots) == n - 1
    ensures Position(n, slots) < n
  {
    NextModulo(n, slots);
    if n <= slots {
      SmallModulo(n - 1, slots);
    }
  }

  /** How many elements of the previous lap are left after `n` stores into `slots` slots. */
  function OlderCount(n: nat, slots: nat): nat
    requires slots > 0 && n > 0
  {
    var k := Position(n, slots);
    if n <= slots then 0
    else if slots % RECORD_IDS != 0 then slots - 1 - k
    else if k + 2 <= slots then slots - 2 - k
    else 0
  }

  /** The elements of `s` fill the slots from `first` on. */
  predicate InSlots(pid: u16, p: Partition, s: seq<Elem>, first: int) {
    forall i :: 0 <= i < |s| ==> first + i >= 0 && s[i].address == SlotAddress(pid, p, first + i)
  }

  lemma InSlotsSnoc(pid: u16, p: Partition, s: seq<Elem>, e: Elem)
    requires InSlots(pid, p, s, 0) && e.address == SlotAddress(pid, p, |s|)
    ensures InSlots(pid, p, s + [e], 0)
  {
    hide SlotAddress;
  }

  /** The log of a static partition after `n > 0` stores since it was last empty. */
  predicate RingInv(pid: u16, p: Partition, log: Log, n: nat) {
    var slots := Slots(pid, p);
    && !IsDynamic(pid) && slots > 0 && n > 0
    && log.chain != [] && |log.chain| - 1 == Position(n, slots)
    && |log.older| == OlderCount(n, slots)
    && (log.linked <==> log.older != [] && slots != 2)
    && InSlots(pid, p, log.chain, 0) && InSlots(pid, p, log.older, slots - |log.older|)
    && p.metadata.lastElementAddress
       == (if n <= slots || slots <= 2 then p.firstElementAddress else SlotAddress(pid, p, slots - 1))
  }

  /** Whether the slot behind a new element is erased depends on the identifier of the intact element in it. */
  lemma NoNextOfIntact(mem: seq<byte>, pid: u16, p: Partition, e: Elem, r: Elem)
    requires Lies(mem, pid, p.firstElementAddress, r) && r.address == End(pid, p.firstElementAddress, e)
    requires |e.data| < 0x1_0000 && !IsDynamic(pid) && |r.data| == p.metadata.firstElementLen
    requires End(pid, p.firstElementAddress, r) <= PartEnd(p) <= |mem|
    ensures NoNext(mem, pid, p, e) <==> r.id != IncrementRecordId(e.id)
  {
    ReadElem(mem, pid, p, r);
    hide Checksum, SerializeHeader, DeserializeHeader, ReadFirst, IncrementRecordId;
    assert Kept(pid, ElemHeader(r)).recordId == r.id;
    hide Kept, ElemHeader, HeaderLen;
  }

  /** The elements of slots `first..slots` that survive a store into slot `k`. */
  lemma Survivors(pid: u16, p: Partition, s: seq<Elem>, first: nat, k: nat, reach: nat, erased: bool)
    requires first <= k + 1 || s == []
    requires InSlots(pid, p, s, first)
    requires reach == SlotAddress(pid, p, k + 1) + (if erased then HeaderLen(pid) else 0)
    ensures var d := k + 1 - first + (if erased then 1 else 0);
            |From(s, reach)| == if s == [] || |s| <= d then 0 else |s| - d
  {
    hide From, SlotAddress, HeaderLen;
    var d := k + 1 - first + (if erased then 1 else 0);
    if s != [] {
      SlotGap(pid, p, k + 1);
      forall i | 0 <= i < d && i < |s| ensures s[i].address < reach {
        SlotsGrow(pid, p, first + i, k + 1);
        HeaderIsSomething(pid);
      }
      forall i | d <= i < |s| ensures reach <= s[i].address {
        SlotsGrow(pid, p, k + 1, first + i);
        SlotsGrow(pid, p, k + 2, first + i);
      }
      FromDrops(s, reach, d);
    }
  }

  lemma HeaderIsSomething(pid: u16)
    ensures HeaderLen(pid) > 0
  {
  }

  /** `From` drops the first `d` elements if these are the ones below the bound. */
  lemma FromDrops(s: seq<Elem>, bound: nat, d: nat)
    requires forall i :: 0 <= i < d && i < |s| ==> s[i].address < bound
    requires forall i :: d <= i < |s| ==> bound <= s[i].address
    ensures |From(s, bound)| == if |s| <= d then 0 else |s| - d
  {
    var r := From(s, bound);
    hide From;
    if r != [] {
      assert r[0] == s[|s| - |r|];
    }
  }

  lemma SlotGap(pid: u16, p: Partition, j: nat)
    ensures j > 0 ==> SlotAddress(pid, p, j) + HeaderLen(pid) <= SlotAddress(pid, p, j + 1)
  {
    assert (j + 1) * SlotSize(pid, p) == j * SlotSize(pid, p) + SlotSize(pid, p);
  }

  // ---- a store into the ring ----

  /** Index and address of the slot the next element goes to. */
  lemma NextSlot(mem: seq<byte>, pid: u16, p: Partition, log: Log, n: nat)
    requires LogInv(mem, pid, p, log) && RingInv(pid, p, log, n)
    requires METADATA_SIZE <= p.metadata.partitionSize
    ensures Placement(pid, p, p.metadata.firstElementLen).address == SlotAddress(pid, p, Position(n + 1, Slots(pid, p)))
    ensures End(pid, p.firstElementAddress, Last(log.chain)) == SlotAddress(pid, p, |log.chain|)
    ensures Position(n + 1, Slots(pid, p)) == if |log.chain| == Slots(pid, p) then 0 else |log.chain|
  {
    hide LiesFirst, AllLie, Linked, EndsLap, OlderInv, HeaderLen, Registered, Slots, SlotAddress;
    var slots, e := Slots(pid, p), Last(log.chain);
    var k := |log.chain| - 1;
    SlotFollows(pid, p, e, k);
    SlotFits(pid, p, k + 1);
    PositionAdvances(n, slots);
    EndPlusSlot(pid, p, k + 1);
    assert SlotAddress(pid, p, 0) == p.firstElementAddress by { SlotZero(pid, p); }
  }

  lemma SlotZero(pid: u16, p: Partition)
    ensures SlotAddress(pid, p, 0) == p.firstElementAddress
  {
  }

  lemma EndPlusSlot(pid: u16, p: Partition, j: nat)
    requires j > 0
    ensures SlotAddress(pid, p, j) + HeaderLen(pid) + p.metadata.firstElementLen == SlotAddress(pid, p, j + 1)
  {
    hide HeaderLen;
    assert (j + 1) * SlotSize(pid, p) == j * SlotSize(pid, p) + SlotSize(pid, p);
  }

  lemma NextModulo(n: nat, m: nat)
    requires n > 0 && m > 0
    ensures n % m == if (n - 1) % m + 1 == m then 0 else (n - 1) % m + 1
  {
    var q, r := (n - 1) / m, (n - 1) % m;
    assert n - 1 == q * m + r;
    if r + 1 == m {
      assert n == (q + 1) * m;
      DivisionUnique(n, m, q + 1, 0);
    } else {
      DivisionUnique(n, m, q, r + 1);
    }
  }

  /** The identifier after that of a new element comes round to `s[i]`, stored `slots - 1` before it, with the period. */
  lemma IdsComeRound(s: seq<Elem>, e: Elem, i: nat, slots: nat)
    requires Consecutive(s) && i < |s| && |s| == i + slots - 1 && WellFormed(s[i])
    requires e.id == IncrementRecordId(Last(s).id)
    ensures s[i].id == IncrementRecordId(e.id) <==> slots % RECORD_IDS == 0
  {
    hide IncrementRecordId, RecordIdAfter;
    var rest := s[i..];
    assert Consecutive(rest);
    IdsAlong(rest, |rest| - 1);
    assert Last(rest) == Last(s);
    IncrementIsAfter(s[i].id, slots - 2);
    IncrementIsAfter(s[i].id, slots - 1);
    AfterIsSame(s[i].id, slots);
  }

  /** The slot behind the new element holds the element stored `slots - 1` before it: is it taken for a successor? */
  lemma ErasedIffPeriod(mem: seq<byte>, pid: u16, p: Partition, log: Log, e: Elem, i: nat, slots: nat)
    requires LogInv(mem, pid, p, log) && !IsDynamic(pid) && WellFormed(e) && Succeeds(Last(log.chain), e)
    requires i < |All(log)| && |All(log)| == i + slots - 1
    requires p.firstElementAddress < All(log)[i].address == End(pid, p.firstElementAddress, e)
    ensures NoNext(mem, pid, p, e) <==> slots % RECORD_IDS != 0
  {
    assert |e.data| < 0x1_0000 && e.id == IncrementRecordId(Last(log.chain).id) && log.chain != [];
    hide LogInv, Lies, NoNext, IncrementRecordId, End, Succeeds, WellFormed, Consecutive;
    LogConsecutive(mem, pid, p, log);
    IntactInLog(mem, pid, p, log, i);
    NoNextOfIntact(mem, pid, p, e, All(log)[i]);
    assert Last(All(log)) == Last(log.chain);
    IdsComeRound(All(log), e, i, slots);
  }

  /** An element of the log that is not at the partition start lies in storage, inside the partition. */
  lemma IntactInLog(mem: seq<byte>, pid: u16, p: Partition, log: Log, i: nat)
    requires LogInv(mem, pid, p, log) && i < |All(log)| && p.firstElementAddress < All(log)[i].address
    ensures Lies(mem, pid, p.firstElementAddress, All(log)[i])
    ensures End(pid, p.firstElementAddress, All(log)[i]) <= PartEnd(p) <= |mem|
    ensures !IsDynamic(pid) ==> |All(log)[i].data| == p.metadata.firstElementLen
  {
    hide LiesFirst, Lies, NoNext, Linked, HeaderLen, End, Succeeds;
    ChainInBounds(mem, pid, p, log.chain);
    if log.older != [] {
      OlderInBounds(mem, pid, p, log.older, log.chain);
    }
  }

  /** The previous lap after one more store. */
  function SurvivingLap(pid: u16, p: Partition, log: Log, e: Elem): seq<Elem> {
    if e.address == p.firstElementAddress then log.chain else log.older
  }

  /** The first slot of the surviving lap. */
  function FirstSlot(pid: u16, p: Partition, log: Log, e: Elem): int {
    if e.address == p.firstElementAddress then 0 else Slots(pid, p) - |log.older|
  }

  /** The facts about a store into slot `k` of a ring that counting needs. */
  predicate IntoSlot(pid: u16, p: Partition, log: Log, e: Elem, n: nat, k: nat) {
    var slots := Slots(pid, p);
    && slots > 0 && n > 0 && k == Position(n + 1, slots)
    && (k == 0 <==> e.address == p.firstElementAddress)
    && k == (if |log.chain| == slots then 0 else |log.chain|)
    && |log.chain| - 1 == Position(n, slots) && |log.older| == OlderCount(n, slots)
    && End(pid, p.firstElementAddress, e) == SlotAddress(pid, p, k + 1)
    && p.firstElementAddress < SlotAddress(pid, p, k + 1)
  }

  lemma StoreIntoSlot(mem: seq<byte>, pid: u16, p: Partition, log: Log, e: Elem, n: nat)
    requires LogInv(mem, pid, p, log) && RingInv(pid, p, log, n) && METADATA_SIZE <= p.metadata.partitionSize
    requires e.address == SlotAddress(pid, p, Position(n + 1, Slots(pid, p))) && |e.data| == p.metadata.firstElementLen
    ensures IntoSlot(pid, p, log, e, n, Position(n + 1, Slots(pid, p)))
  {
    hide LogInv, SlotAddress, Slots, HeaderLen;
    var k := Position(n + 1, Slots(pid, p));
    NextSlot(mem, pid, p, log, n);
    SlotZero(pid, p);
    SlotsGrow(pid, p, 0, k);
    SlotsGrow(pid, p, 0, k + 1);
    SlotFollows(pid, p, e, k);
  }

  lemma ErasedInRing(mem: seq<byte>, pid: u16, p: Partition, log: Log, e: Elem, n: nat, k: nat)
    requires LogInv(mem, pid, p, log) && RingInv(pid, p, log, n) && IntoSlot(pid, p, log, e, n, k)
    requires WellFormed(e) && Succeeds(Last(log.chain), e)
    ensures var s, first := SurvivingLap(pid, p, log, e), FirstSlot(pid, p, log, e);
      && (s != [] ==> 0 <= first <= k + 1)
      && (s != [] && k + 1 - first < |s| ==> (NoNext(mem, pid, p, e) <==> Slots(pid, p) % RECORD_IDS != 0))
  {
    hide NoNext, LogInv, SlotAddress, Slots, HeaderLen, Succeeds, WellFormed, IsRecordId;
    var slots := Slots(pid, p);
    var s, first := SurvivingLap(pid, p, log, e), FirstSlot(pid, p, log, e);
    if s != [] && k + 1 - first < |s| {
      var i := k + 1 - first;
      assert s[i].address == SlotAddress(pid, p, k + 1);
      var j := if k == 0 then |log.older| + i else i;
      assert All(log)[j] == s[i];
      ErasedIffPeriod(mem, pid, p, log, e, j, slots);
    }
  }

  lemma OlderAfterStore(mem: seq<byte>, pid: u16, p: Partition, log: Log, e: Elem, n: nat, k: nat)
    requires LogInv(mem, pid, p, log) && RingInv(pid, p, log, n) && IntoSlot(pid, p, log, e, n, k)
    requires WellFormed(e) && Succeeds(Last(log.chain), e)
    ensures |From(SurvivingLap(pid, p, log, e), Reach(mem, pid, p, e))| == OlderCount(n + 1, Slots(pid, p))
  {
    hide NoNext, LogInv, RingInv, Position, SlotAddress, Slots, HeaderLen, Succeeds, WellFormed, From, OlderCount, Reach, End;
    ErasedInRing(mem, pid, p, log, e, n, k);
    SurvivorsInRing(mem, pid, p, log, e, n, k);
    CountSurvivors(n, Slots(pid, p), k, |log.chain|, |log.older|);
  }

  lemma SurvivorsInRing(mem: seq<byte>, pid: u16, p: Partition, log: Log, e: Elem, n: nat, k: nat)
    requires RingInv(pid, p, log, n) && IntoSlot(pid, p, log, e, n, k)
    requires var s, first := SurvivingLap(pid, p, log, e), FirstSlot(pid, p, log, e); s != [] ==> 0 <= first <= k + 1
    ensures var s, first := SurvivingLap(pid, p, log, e), FirstSlot(pid, p, log, e);
            var d := k + 1 - first + (if NoNext(mem, pid, p, e) then 0 else 1);
            |From(s, Reach(mem, pid, p, e))| == if s == [] || |s| <= d then 0 else |s| - d
  {
    hide NoNext, SlotAddress, Slots, HeaderLen, From, OlderCount, End;
    var s, first := SurvivingLap(pid, p, log, e), FirstSlot(pid, p, log, e);
    if s != [] {
      Survivors(pid, p, s, first, k, Reach(mem, pid, p, e), !NoNext(mem, pid, p, e));
    }
  }

  /** The arithmetic of the ring. */
  lemma CountSurvivors(n: nat, slots: nat, k: nat, chain: nat, older: nat)
    requires n > 0 && slots > 0 && k == Position(n + 1, slots) && k == (if chain == slots then 0 else chain)
    requires 0 < chain <= slots && chain - 1 == Position(n, slots) && older == OlderCount(n, slots)
    ensures var lap := if k == 0 then chain else older;
            var first := if k == 0 then 0 else slots - older;
            var period := slots % RECORD_IDS == 0;
            var d := k + 1 - first + (if period then 1 else 0);
      && (lap == 0 ==> OlderCount(n + 1, slots) == 0)
      && (lap > 0 && k + 1 - first < lap ==> OlderCount(n + 1, slots) == if lap <= d then 0 else lap - d)
      && (lap > 0 && lap <= k + 1 - first ==> OlderCount(n + 1, slots) == 0)
  {
    hide Position;
    PositionAdvances(n, slots);
    PositionAdvances(n + 1, slots);
  }

  lemma SmallModulo(n: nat, m: nat)
    requires n < m
    ensures n % m == n
  {
  }

  /** The address of what is left of a lap that ended in the last slot. */
  lemma SurvivorAddresses(pid: u16, p: Partition, s: seq<Elem>, first: nat, slots: nat, reach: nat)
    requires |s| + first == slots && InSlots(pid, p, s, first)
    ensures InSlots(pid, p, From(s, reach), slots - |From(s, reach)|)
  {
    hide SlotAddress;
    var r := From(s, reach);
    hide From;
    forall i | 0 <= i < |r| ensures r[i].address == SlotAddress(pid, p, slots - |r| + i) {
      assert r[i] == s[|s| - |r| + i];
    }
  }

  /** What a store leaves in the RAM record, as far as the ring goes. */
  predicate RecordOf(pid: u16, p: Partition, q: Partition, e: Elem) {
    && SameShape(pid, p, q)
    && q.metadata.lastElementAddress
       == (if e.address != p.firstElementAddress then p.metadata.lastElementAddress
           else if End(pid, p.firstElementAddress, e) >= p.latestElementAddress then p.firstElementAddress
           else p.latestElementAddress)
  }

  /** `RingInv`, with the slot count and the slot addresses of another record of the same shape. */
  lemma RingInvOfShape(pid: u16, p: Partition, q: Partition, log: Log, n: nat)
    requires SameShape(pid, p, q) && !IsDynamic(pid)
    requires RingInv(pid, p.(metadata := p.metadata.(lastElementAddress := q.metadata.lastElementAddress)), log, n)
    ensures RingInv(pid, q, log, n)
  {
    var p1 := p.(metadata := p.metadata.(lastElementAddress := q.metadata.lastElementAddress));
    SlotsOfShape(pid, p, q);
    SlotsOfShape(pid, p1, q);
    hide SlotAddress, Slots, OlderCount, SameShape;
  }

  /** The first element of a static partition. */
  lemma RingStarts(pid: u16, p: Partition, q: Partition, e: Elem, reach: nat)
    requires !IsDynamic(pid) && Slots(pid, p) > 0 && RecordOf(pid, p, q, e)
    requires e.address == p.firstElementAddress == p.latestElementAddress
    ensures RingInv(pid, q, AfterStore(pid, p.firstElementAddress, EMPTY_LOG, e, reach), 1)
  {
    hide SlotAddress, Slots, End, HeaderLen, IsDynamic, Position, AfterStore, From;
    SlotZero(pid, q);
    PositionAdvances(1, Slots(pid, p));
    SlotsOfShape(pid, p, q);
    AfterFirstStore(pid, p.firstElementAddress, e, reach);
    hide AfterStore, SameShape;
  }

  lemma AfterFirstStore(pid: u16, start: nat, e: Elem, reach: nat)
    requires e.address == start
    ensures AfterStore(pid, start, EMPTY_LOG, e, reach) == Log([], [e], false)
  {
    hide End;
  }

  /** One more store, not into slot 0. */
  lemma RingAppends(mem: seq<byte>, pid: u16, p: Partition, q: Partition, log: Log, e: Elem, n: nat)
    requires RingInv(pid, p, log, n) && RecordOf(pid, p, q, e) && IntoSlot(pid, p, log, e, n, Position(n + 1, Slots(pid, p)))
    requires e.address == SlotAddress(pid, p, Position(n + 1, Slots(pid, p))) != p.firstElementAddress
    requires |From(log.older, Reach(mem, pid, p, e))| == OlderCount(n + 1, Slots(pid, p))
    ensures RingInv(pid, q, AfterStore(pid, p.firstElementAddress, log, e, Reach(mem, pid, p, e)), n + 1)
  {
    hide NoNext, SlotAddress, Slots, HeaderLen, From, Reach, SameShape, End, Position, InSlots, IsDynamic;
    var slots := Slots(pid, p);
    SurvivorAddresses(pid, p, log.older, slots - |log.older|, slots, Reach(mem, pid, p, e));
    PositionAdvances(n, slots);
    AppendOlder(n, slots);
    InSlotsSnoc(pid, p, log.chain, e);
    hide OlderCount;
    var log' := AfterStore(pid, p.firstElementAddress, log, e, Reach(mem, pid, p, e));
    assert p.(metadata := p.metadata.(lastElementAddress := q.metadata.lastElementAddress)) == p;
    RingInvOfShape(pid, p, q, log', n + 1);
  }

  /** One more store, into slot 0: the lap is full, and a new one begins. */
  lemma RingWraps(mem: seq<byte>, pid: u16, p: Partition, q: Partition, log: Log, e: Elem, n: nat)
    requires RingInv(pid, p, log, n) && RecordOf(pid, p, q, e) && IntoSlot(pid, p, log, e, n, Position(n + 1, Slots(pid, p)))
    requires Position(n + 1, Slots(pid, p)) == 0 && e.address == p.firstElementAddress
    requires p.latestElementAddress == Last(log.chain).address
    requires |From(log.chain, Reach(mem, pid, p, e))| == OlderCount(n + 1, Slots(pid, p))
    ensures RingInv(pid, q, AfterStore(pid, p.firstElementAddress, log, e, Reach(mem, pid, p, e)), n + 1)
  {
    hide NoNext, SlotAddress, Slots, HeaderLen, From, Reach, End, IsDynamic, Position;
    var slots, reach := Slots(pid, p), Reach(mem, pid, p, e);
    var older := From(log.chain, reach);
    WrapCounts(n, slots, |log.chain|);
    SurvivorAddresses(pid, p, log.chain, 0, slots, reach);
    SlotZero(pid, p);
    SlotsGrow(pid, p, 1, slots - 1);
    SlotsGrow(pid, p, slots - 1, 1);
    WrapOlder(n, slots);
    assert Last(log.chain).address == SlotAddress(pid, p, slots - 1);
    assert InSlots(pid, p, [e], 0);
    SlotsOfShape(pid, p, q);
    InSlotsOfShape(pid, p, q, [e], 0);
    InSlotsOfShape(pid, p, q, older, slots - |older|);
    hide OlderCount, InSlots, SameShape;
  }

  lemma InSlotsOfShape(pid: u16, p: Partition, q: Partition, s: seq<Elem>, first: int)
    requires SameShape(pid, p, q) && !IsDynamic(pid) && InSlots(pid, p, s, first)
    ensures InSlots(pid, q, s, first)
  {
    SlotsOfShape(pid, p, q);
    hide SlotAddress, SameShape;
    forall i | 0 <= i < |s| ensures s[i].address == SlotAddress(pid, q, first + i) {
      var j: nat := first + i;
      assert SlotAddress(pid, q, j) == SlotAddress(pid, p, j);
    }
  }

  /** One more store: the ring after `n + 1` stores. */
  lemma RingGrows(mem: seq<byte>, pid: u16, p: Partition, q: Partition, log: Log, e: Elem, n: nat)
    requires LogInv(mem, pid, p, log) && RingInv(pid, p, log, n) && METADATA_SIZE <= p.metadata.partitionSize
    requires e.address == SlotAddress(pid, p, Position(n + 1, Slots(pid, p))) && |e.data| == p.metadata.firstElementLen
    requires WellFormed(e) && Succeeds(Last(log.chain), e) && RecordOf(pid, p, q, e)
    ensures RingInv(pid, q, AfterStore(pid, p.firstElementAddress, log, e, Reach(mem, pid, p, e)), n + 1)
  {
    hide NoNext, SlotAddress, Slots, HeaderLen, Succeeds, WellFormed, From, Reach, IsRecordId, RecordOf, AfterStore, OlderCount;
    StoreIntoSlot(mem, pid, p, log, e, n);
    OlderAfterStore(mem, pid, p, log, e, n, Position(n + 1, Slots(pid, p)));
    hide LogInv, RingInv;
    if Position(n + 1, Slots(pid, p)) == 0 {
      RingWraps(mem, pid, p, q, log, e, n);
    } else {
      RingAppends(mem, pid, p, q, log, e, n);
    }
  }

  lemma WrapCounts(n: nat, slots: nat, chain: nat)
    requires n > 0 && slots > 0 && Position(n + 1, slots) == 0 && chain - 1 == Position(n, slots)
    ensures chain == slots && n >= slots
  {
    hide Position;
    PositionAdvances(n, slots);
  }

  lemma WrapOlder(n: nat, slots: nat)
    requires n > 0 && slots > 0 && Position(n + 1, slots) == 0
    ensures slots == 1 ==> OlderCount(n + 1, slots) == 0
    ensures OlderCount(n + 1, slots) < slots
  {
    hide Position;
  }

  lemma AppendOlder(n: nat, slots: nat)
    requires n > 0 && slots > 0 && Position(n + 1, slots) != 0
    ensures OlderCount(n + 1, slots) != 0 ==> OlderCount(n, slots) != 0
    ensures n <= slots ==> n < slots
    ensures OlderCount(n, slots) == 0 ==> OlderCount(n + 1, slots) == 0
  {
    hide Position;
    PositionAdvances(n, slots);
  }
}
