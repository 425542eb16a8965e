/** The elements a partition holds, as a ghost log over the bytes in storage. */
module FsLog {
  import opened Bytes
  import opened Words
  import opened Crc16
  import opened Units
  import opened FsTypes
  import opened FsSpec

  /** One element: where it is, its record identifier, the stored exclusive or of lengths, its payload. */
  datatype Elem = Elem(address: nat, id: u16, xor: u16, data: seq<byte>)

  function ElemHeader(e: Elem): Header { Header(e.id, e.xor, Checksum(e.data)) }

  predicate WellFormed(e: Elem) { |e.data| < 0x1_0000 && IsRecordId(e.id) }

  function End(pid: u16, start: nat, e: Elem): nat { e.address + FullHeaderLen(pid, start, e.address) + |e.data| }

  /** An element behind the first one lies in storage: header, then payload. */
  predicate Lies(mem: seq<byte>, pid: u16, start: nat, e: Elem) {
    && WellFormed(e) && start < e.address
    && Holds(mem, e.address, SerializeHeader(pid, ElemHeader(e)) + e.data)
  }

  /** The first element lies at the start, with metadata whose checksum is right and equal to the copy in RAM. */
  predicate LiesFirst(mem: seq<byte>, pid: u16, p: Partition, e: Elem) {
    && WellFormed(e) && e.address == p.firstElementAddress
    && Storable(p.metadata) && p.metadata == Sealed(pid, p.metadata, ElemHeader(e))
    && p.metadata.firstElementLen == |e.data|
    && Holds(mem, e.address, FirstBlob(pid, p.metadata, ElemHeader(e)) + e.data)
  }

  predicate Follows(pid: u16, start: nat, a: Elem, b: Elem) {
    b.address == End(pid, start, a) && Succeeds(a, b)
  }

  predicate Linked(pid: u16, start: nat, s: seq<Elem>) {
    forall i :: 0 < i < |s| ==> Follows(pid, start, s[i - 1], s[i])
  }

  /** The header behind `e` does not look like the element after `e`. */
  predicate NoNext(mem: seq<byte>, pid: u16, p: Partition, e: Elem) {
    var next, end := End(pid, p.firstElementAddress, e), PartEnd(p);
    next + HeaderLen(pid) <= end <= |mem| && |e.data| < 0x1_0000 ==>
      var h := DeserializeHeader(pid, mem[next..next + HeaderLen(pid)]);
      h.recordId == IncrementRecordId(e.id) ==>
        next + HeaderLen(pid) + NeighbourLen(pid, p, |e.data|, h.previousXorCurrent) > end
  }

  /** There are as many bytes behind `e` as a header has, so that looking there succeeds. */
  predicate Readable(mem: seq<byte>, pid: u16, start: nat, e: Elem) {
    End(pid, start, e) + HeaderLen(pid) <= |mem|
  }

  /**
   * `chain`: the elements since the last wrap, oldest first, from the partition start on.
   * `older`: those elements of the lap before that are not overwritten yet, up to its last one.
   * `linked`: the metadata still leads to the last of `older`.
   */
  datatype Log = Log(older: seq<Elem>, chain: seq<Elem>, linked: bool)

  /** What a walk back from the latest element can reach, oldest first. */
  function Reachable(log: Log): seq<Elem> { (if log.linked then log.older else []) + log.chain }

  function Last<T>(s: seq<T>): T
    requires s != []
  {
    s[|s| - 1]
  }

  predicate AllLie(mem: seq<byte>, pid: u16, start: nat, s: seq<Elem>) {
    forall i :: 0 <= i < |s| ==> Lies(mem, pid, start, s[i])
  }

  /** `e` may be the last element of a lap: it ends in the partition, and nothing behind it continues it. */
  predicate EndsLap(mem: seq<byte>, pid: u16, p: Partition, e: Elem) {
    && End(pid, p.firstElementAddress, e) <= PartEnd(p)
    && NoNext(mem, pid, p, e) && Readable(mem, pid, p.firstElementAddress, e)
  }

  /** `b` was stored directly after `a`. */
  predicate Succeeds(a: Elem, b: Elem) {
    && b.id == IncrementRecordId(a.id)
    && |a.data| < 0x1_0000 && |b.data| < 0x1_0000 && b.xor == Xor16(|a.data|, |b.data|)
  }

  predicate ChainInv(mem: seq<byte>, pid: u16, p: Partition, chain: seq<Elem>) {
    && chain != []
    && LiesFirst(mem, pid, p, chain[0]) && AllLie(mem, pid, p.firstElementAddress, chain[1..])
    && Linked(pid, p.firstElementAddress, chain)
    && EndsLap(mem, pid, p, Last(chain))
  }

  predicate OlderInv(mem: seq<byte>, pid: u16, p: Partition, older: seq<Elem>, chain: seq<Elem>)
    requires older != [] && chain != []
  {
    && AllLie(mem, pid, p.firstElementAddress, older)
    && Linked(pid, p.firstElementAddress, older)
    && EndsLap(mem, pid, p, Last(older))
    && End(pid, p.firstElementAddress, Last(chain)) <= older[0].address
    && Succeeds(Last(older), chain[0])
  }

  predicate AllOfLen(s: seq<Elem>, n: nat) {
    forall i :: 0 <= i < |s| ==> |s[i].data| == n
  }

  /** A partition with at least one element. */
  predicate LogInv(mem: seq<byte>, pid: u16, p: Partition, log: Log) {
    && Registered(mem, pid, p) && p.hasFirstElement
    && ChainInv(mem, pid, p, log.chain)
    && (var e := Last(log.chain);
        p.latestElementAddress == e.address && p.latestRecordId == e.id && p.latestElementLen == |e.data|)
    && (log.older != [] ==> OlderInv(mem, pid, p, log.older, log.chain))
    && (log.linked ==> log.older != [] && p.metadata.lastElementAddress == Last(log.older).address)
    && (!IsDynamic(pid) ==> AllOfLen(log.older, p.metadata.firstElementLen)
                            && AllOfLen(log.chain, p.metadata.firstElementLen))
  }

  /** A partition without elements: neither copy of the first header is one of its own. */
  predicate EmptyInv(mem: seq<byte>, pid: u16, p: Partition) {
    && Registered(mem, pid, p) && !p.hasFirstElement
    && ReadFirst(mem, pid, p).ret == NotFound
    && p.latestElementAddress == p.firstElementAddress && IsRecordId(p.latestRecordId)
  }

  // ---- reading under the invariants ----

  /** Reading the first header finds storage and RAM in order: nothing to repair or refresh. */
  predicate Stable(mem: seq<byte>, pid: u16, p: Partition) {
    ReadFirst(mem, pid, p).writes == [] && ReadFirst(mem, pid, p).part == p
  }

  lemma ReadFirstElem(mem: seq<byte>, pid: u16, p: Partition, e: Elem)
    requires Registered(mem, pid, p) && LiesFirst(mem, pid, p, e)
    ensures ReadFirst(mem, pid, p) == HeaderRead(Success, p, Kept(pid, ElemHeader(e)), [])
  {
    hide Sealed, FirstBlob, Judge, Checksum;
    var blob := FirstBlob(pid, p.metadata, ElemHeader(e));
    HoldsSplit(mem, e.address, blob, e.data);
    assert mem[e.address..e.address + FirstLen(pid)] == blob;
    SealedIsGood(pid, p, p.metadata, ElemHeader(e));
  }

  lemma ReadElem(mem: seq<byte>, pid: u16, p: Partition, e: Elem)
    requires Lies(mem, pid, p.firstElementAddress, e)
    ensures ReadHeader(mem, pid, p, e.address) == HeaderRead(Success, p, Kept(pid, ElemHeader(e)), [])
  {
    var h := SerializeHeader(pid, ElemHeader(e));
    HoldsSplit(mem, e.address, h, e.data);
    hide SerializeHeader, DeserializeHeader, Checksum;
    HeaderRoundTrip(pid, ElemHeader(e));
  }

  lemma LogIsStable(mem: seq<byte>, pid: u16, p: Partition, log: Log)
    requires LogInv(mem, pid, p, log)
    ensures Stable(mem, pid, p)
  {
    ReadFirstElem(mem, pid, p, log.chain[0]);
  }

  lemma EmptyIsStable(mem: seq<byte>, pid: u16, p: Partition)
    requires EmptyInv(mem, pid, p)
    ensures Stable(mem, pid, p)
  {
  }

  lemma StableReads(mem: seq<byte>, pid: u16, p: Partition, address: nat)
    requires Stable(mem, pid, p)
    ensures ReadHeader(mem, pid, p, address).writes == [] && ReadHeader(mem, pid, p, address).part == p
  {
  }

  lemma StableNext(mem: seq<byte>, pid: u16, p: Partition, address: nat, id: u16, len: u16)
    requires Stable(mem, pid, p)
    ensures var r := NextHeader(mem, pid, p, address, id, len); r.writes == [] && r.part == p
  {
    forall a { StableReads(mem, pid, p, a); }
    hide ReadHeader, Stable, HeaderLen, FullHeaderLen, NeighbourLen, SameButMetadata;
  }

  lemma StablePrevious(mem: seq<byte>, pid: u16, p: Partition, address: nat, id: u16, len: u16)
    requires Stable(mem, pid, p)
    ensures var r := PreviousHeader(mem, pid, p, address, id, len); r.writes == [] && r.part == p
  {
    forall a { StableReads(mem, pid, p, a); }
    hide ReadHeader, Stable, HeaderLen, FullHeaderLen, NeighbourLen, SameButMetadata;
  }

  lemma StableChecks(g: Geometry, mem: seq<byte>, pid: u16, p: Partition, it: Iterator, address: nat, len: u16)
    requires Regular(g) && Stable(mem, pid, p)
    ensures var r := CheckValidity(mem, pid, p, it); r.writes == [] && r.part == p
    ensures var r := CheckConflict(g, mem, pid, p, it, address, len); r.writes == [] && r.part == p
  {
    forall a { StableReads(mem, pid, p, a); }
    hide ReadHeader, Stable, HeaderLen, FullHeaderLen, UnitLimits, SameButMetadata;
  }

  /** Addresses grow along a linked sequence. */
  lemma {:induction false} LinkedGrows(pid: u16, start: nat, s: seq<Elem>, i: nat, j: nat)
    requires Linked(pid, start, s) && i < j < |s|
    ensures End(pid, start, s[i]) <= s[j].address && s[i].address < s[j].address
    decreases j
  {
    assert Follows(pid, start, s[j - 1], s[j]);
    if i < j - 1 {
      LinkedGrows(pid, start, s, i, j - 1);
    }
  }

  /** The first element of a linked run is the lowest, the last one ends it. */
  lemma LinkedBounds(pid: u16, start: nat, s: seq<Elem>)
    requires Linked(pid, start, s) && s != []
    ensures forall i :: 0 <= i < |s| ==> s[0].address <= s[i].address && End(pid, start, s[i]) <= End(pid, start, Last(s))
    ensures forall i :: 0 < i < |s| ==> s[0].address < s[i].address
  {
    hide Follows, Linked;
    forall i | 0 <= i < |s| - 1 {
      LinkedGrows(pid, start, s, i, |s| - 1);
    }
    forall i | 0 < i < |s| {
      LinkedGrows(pid, start, s, 0, i);
    }
  }

  // ---- what the invariants depend on ----

  lemma LiesFrame(mem: seq<byte>, mem': seq<byte>, pid: u16, start: nat, e: Elem)
    requires Lies(mem, pid, start, e) && Agree(mem, mem', e.address, End(pid, start, e))
    ensures Lies(mem', pid, start, e)
  {
    hide SerializeHeader, Checksum;
  }

  lemma LiesFirstFrame(mem: seq<byte>, mem': seq<byte>, pid: u16, p: Partition, e: Elem)
    requires LiesFirst(mem, pid, p, e) && Agree(mem, mem', e.address, End(pid, p.firstElementAddress, e))
    ensures LiesFirst(mem', pid, p, e)
  {
    hide FirstBlob, Sealed, Checksum;
  }

  /** What `NoNext` reads of the RAM record: place, size, and the common length of a static partition. */
  predicate SameShape(pid: u16, p: Partition, q: Partition) {
    && q.firstElementAddress == p.firstElementAddress
    && q.metadata.partitionId == p.metadata.partitionId
    && q.metadata.partitionSize == p.metadata.partitionSize
    && (!IsDynamic(pid) ==> q.metadata.firstElementLen == p.metadata.firstElementLen)
  }

  lemma NoNextFrame(mem: seq<byte>, mem': seq<byte>, pid: u16, p: Partition, q: Partition, e: Elem)
    requires NoNext(mem, pid, p, e) && |mem'| == |mem| && SameShape(pid, p, q)
    requires var next := End(pid, p.firstElementAddress, e);
             next + HeaderLen(pid) <= PartEnd(p) <= |mem| ==>
               Agree(mem, mem', next, next + HeaderLen(pid))
    ensures NoNext(mem', pid, q, e)
  {
    hide DeserializeHeader;
    var next := End(pid, p.firstElementAddress, e);
    if next + HeaderLen(pid) <= PartEnd(p) <= |mem| {
      assert mem[next..next + HeaderLen(pid)] == mem'[next..next + HeaderLen(pid)];
    }
  }

  lemma AllLieFrame(mem: seq<byte>, mem': seq<byte>, pid: u16, start: nat, s: seq<Elem>)
    requires AllLie(mem, pid, start, s)
    requires forall i :: 0 <= i < |s| ==> Agree(mem, mem', s[i].address, End(pid, start, s[i]))
    ensures AllLie(mem', pid, start, s)
  {
    hide Lies, Agree, End;
    forall i | 0 <= i < |s| ensures Lies(mem', pid, start, s[i]) {
      LiesFrame(mem, mem', pid, start, s[i]);
    }
  }

  lemma EndsLapFrame(mem: seq<byte>, mem': seq<byte>, pid: u16, p: Partition, q: Partition, e: Elem)
    requires EndsLap(mem, pid, p, e) && |mem'| == |mem| && SameShape(pid, p, q)
    requires var next := End(pid, p.firstElementAddress, e);
             next + HeaderLen(pid) <= PartEnd(p) <= |mem| ==> Agree(mem, mem', next, next + HeaderLen(pid))
    ensures EndsLap(mem', pid, q, e)
  {
    hide NoNext, HeaderLen, Agree;
    NoNextFrame(mem, mem', pid, p, q, e);
  }

  /** A log depends on nothing but the bytes of its partition. */
  lemma LogFrame(mem: seq<byte>, mem': seq<byte>, pid: u16, p: Partition, log: Log)
    requires LogInv(mem, pid, p, log)
    requires Agree(mem, mem', p.firstElementAddress, PartEnd(p))
    ensures LogInv(mem', pid, p, log)
  {
    hide LiesFirst, Lies, NoNext, Linked, Succeeds, AllLie;
    var start := p.firstElementAddress;
    ChainInBounds(mem, pid, p, log.chain);
    assert Registered(mem', pid, p);
    hide Registered;
    LiesFirstFrame(mem, mem', pid, p, log.chain[0]);
    AllLieFrame(mem, mem', pid, start, log.chain[1..]);
    EndsLapFrame(mem, mem', pid, p, p, Last(log.chain));
    if log.older != [] {
      OlderInBounds(mem, pid, p, log.older, log.chain);
      AllLieFrame(mem, mem', pid, start, log.older);
      EndsLapFrame(mem, mem', pid, p, p, Last(log.older));
    }
  }

  lemma ChainInBounds(mem: seq<byte>, pid: u16, p: Partition, chain: seq<Elem>)
    requires ChainInv(mem, pid, p, chain)
    ensures forall i :: 0 <= i < |chain| ==>
              p.firstElementAddress <= chain[i].address
              && End(pid, p.firstElementAddress, chain[i]) <= End(pid, p.firstElementAddress, Last(chain))
    ensures forall i :: 0 < i < |chain| ==> Lies(mem, pid, p.firstElementAddress, chain[i])
    ensures forall i :: 0 < i < |chain| ==> p.firstElementAddress < chain[i].address
    ensures forall i :: 0 <= i < |chain| ==> WellFormed(chain[i])
    ensures chain[0].address == p.firstElementAddress
  {
    hide Linked, EndsLap, Succeeds;
    LinkedBounds(pid, p.firstElementAddress, chain);
    forall i | 0 < i < |chain| ensures Lies(mem, pid, p.firstElementAddress, chain[i]) {
      assert chain[i] == chain[1..][i - 1];
    }
  }

  lemma OlderInBounds(mem: seq<byte>, pid: u16, p: Partition, older: seq<Elem>, chain: seq<Elem>)
    requires older != [] && chain != [] && OlderInv(mem, pid, p, older, chain)
    ensures forall i :: 0 <= i < |older| ==>
              older[0].address <= older[i].address
              && End(pid, p.firstElementAddress, older[i]) <= End(pid, p.firstElementAddress, Last(older))
  {
    hide Linked, AllLie, EndsLap, Succeeds;
    LinkedBounds(pid, p.firstElementAddress, older);
  }

  /** The empty state depends on the two copies of the first header only. */
  lemma EmptyFrame(mem: seq<byte>, mem': seq<byte>, pid: u16, p: Partition)
    requires EmptyInv(mem, pid, p)
    requires Agree(mem, mem', p.firstElementAddress, PartEnd(p))
    requires Agree(mem, mem', SwapAddress(pid), SwapAddress(pid) + SWAP_SLOT_SIZE)
    ensures EmptyInv(mem', pid, p)
  {
    hide Judge;
    var n, start, swap := FirstLen(pid), p.firstElementAddress, SwapAddress(pid);
    assert mem[start..start + n] == mem'[start..start + n];
    assert mem[swap..swap + n] == mem'[swap..swap + n];
  }
}
