/** Registering again after a restart rebuilds the RAM record from storage alone. */
module FsRecovery {
  import opened Bytes
  import opened Words
  import opened Crc16
  import opened Units
  import opened FsTypes
  import opened FsSpec
  import opened FsLog
  import opened FsStore
  import opened FsWalk

  /** A record whose headers read like those of `p`: same place, same metadata. */
  lemma ChainOfRecord(mem: seq<byte>, pid: u16, p: Partition, q: Partition, chain: seq<Elem>)
    requires ChainInv(mem, pid, p, chain)
    requires q.firstElementAddress == p.firstElementAddress && q.metadata == p.metadata
    ensures ChainInv(mem, pid, q, chain)
  {
    hide Sealed, FirstBlob, AllLie, Linked, DeserializeHeader;
  }

  lemma EndsLapOfRecord(mem: seq<byte>, pid: u16, p: Partition, q: Partition, e: Elem)
    requires EndsLap(mem, pid, p, e)
    requires q.firstElementAddress == p.firstElementAddress && q.metadata == p.metadata
    ensures EndsLap(mem, pid, q, e)
  {
    hide DeserializeHeader;
  }

  /** A registration that asks for the same partition as before. */
  predicate SameRequest(pid: u16, p: Partition, blank: Partition) {
    && blank.firstElementAddress == p.firstElementAddress
    && blank.metadata.partitionId == p.metadata.partitionId
    && blank.metadata.partitionSize == p.metadata.partitionSize
    && (!IsDynamic(pid) ==> blank.metadata.firstElementLen == p.metadata.firstElementLen)
  }

  /** A fresh record finds the first header and takes the metadata over. */
  lemma FreshFindsFirst(mem: seq<byte>, pid: u16, p: Partition, blank: Partition, e: Elem)
    requires Registered(mem, pid, p) && LiesFirst(mem, pid, p, e) && SameRequest(pid, p, blank)
    ensures ReadFirst(mem, pid, blank)
         == HeaderRead(Success, blank.(metadata := p.metadata), Kept(pid, ElemHeader(e)), [])
  {
    hide Sealed, FirstBlob, Judge, Checksum;
    var blob := FirstBlob(pid, p.metadata, ElemHeader(e));
    HoldsSplit(mem, e.address, blob, e.data);
    assert mem[e.address..e.address + FirstLen(pid)] == blob;
    SealedIsGood(pid, blank, p.metadata, ElemHeader(e));
  }

  /** The forward walk from an element of the chain ends at the last one. */
  lemma {:induction false} WalkReachesLast(mem: seq<byte>, pid: u16, p: Partition, chain: seq<Elem>, i: nat)
    requires Registered(mem, pid, p) && ChainInv(mem, pid, p, chain) && i < |chain| && chain[i].address <= |mem|
    requires !IsDynamic(pid) ==> AllOfLen(chain, p.metadata.firstElementLen)
    ensures |chain[i].data| < 0x1_0000 && |Last(chain).data| < 0x1_0000
    ensures WalkToLatest(mem, pid, p, p.metadata.firstElementLen, chain[i].address, chain[i].id, |chain[i].data|)
         == Latest(Success, p, Last(chain).address, Last(chain).id, |Last(chain).data|, [])
    decreases |chain| - i
  {
    hide LiesFirst, Lies, Linked, NoNext, Registered, Succeeds, EndsLap, AllLie, Readback, NextHeader, HeaderLen, WellFormed;
    ChainReadback(mem, pid, p, chain);
    ReadbackSize(mem, pid, p, chain[i]);
    ReadbackSize(mem, pid, p, Last(chain));
    ChainInBounds(mem, pid, p, chain);
    ApplyNothing(mem);
    if i < |chain| - 1 {
      ChainStep(mem, pid, p, chain, i);
      WalkReachesLast(mem, pid, p, chain, i + 1);
      hide ChainInv, Kept, ElemHeader;
    } else {
      WalkStops(mem, pid, p, chain);
    }
  }

  /** One step of the walk: address, identifier and length of the next element of the chain. */
  lemma ChainStep(mem: seq<byte>, pid: u16, p: Partition, chain: seq<Elem>, i: nat)
    requires Registered(mem, pid, p) && ChainInv(mem, pid, p, chain) && i + 1 < |chain|
    requires !IsDynamic(pid) ==> AllOfLen(chain, p.metadata.firstElementLen)
    requires |chain[i].data| < 0x1_0000
    ensures |chain[i + 1].data| < 0x1_0000
    ensures var a, b := chain[i], chain[i + 1];
            var n := NextHeader(mem, pid, p, a.address, a.id, |a.data|);
      && n.ret == Success && n.address == b.address > a.address && n.part == p && n.writes == []
      && n.header.recordId == b.id
      && (if IsDynamic(pid) then Xor16(|a.data|, n.header.previousXorCurrent) else p.metadata.firstElementLen)
         == |b.data|
  {
    hide LiesFirst, Lies, NoNext, Registered, EndsLap, AllLie, Readback, NextHeader, HeaderLen, WellFormed, Checksum, Xor16;
    var a, b := chain[i], chain[i + 1];
    ChainReadback(mem, pid, p, chain);
    ChainInBounds(mem, pid, p, chain);
    assert Follows(pid, p.firstElementAddress, a, b);
    LinkedGrows(pid, p.firstElementAddress, chain, i, i + 1);
    LeadsOnInLap(mem, pid, p, a, b);
    LenAfter(pid, p, a, b);
  }

  lemma WalkStops(mem: seq<byte>, pid: u16, p: Partition, chain: seq<Elem>)
    requires Registered(mem, pid, p) && ChainInv(mem, pid, p, chain)
    ensures |Last(chain).data| < 0x1_0000
    ensures var e := Last(chain);
            var n := NextHeader(mem, pid, p, e.address, e.id, |e.data|);
      && (n.ret == NotFound || (n.ret == Success && n.address <= e.address)) && n.part == p && n.writes == []
  {
    hide LiesFirst, Lies, NoNext, Registered, EndsLap, AllLie, Readback, NextHeader, HeaderLen, WellFormed, ReadHeader, Linked;
    ChainReadback(mem, pid, p, chain);
    ChainInBounds(mem, pid, p, chain);
    ReadbackSize(mem, pid, p, Last(chain));
    NextGoesToStart(mem, pid, p, Last(chain));
    FirstReads(mem, pid, p, chain[0]);
  }

  /** The search through a recovered record finds the last element of the chain. */
  lemma LatestRecovered(mem: seq<byte>, pid: u16, q: Partition, chain: seq<Elem>)
    requires Registered(mem, pid, q) && ChainInv(mem, pid, q, chain)
    requires !IsDynamic(pid) ==> AllOfLen(chain, q.metadata.firstElementLen)
    ensures |Last(chain).data| < 0x1_0000
    ensures FindLatest(mem, pid, q) == Latest(Success, q, Last(chain).address, Last(chain).id, |Last(chain).data|, [])
  {
    hide LiesFirst, Linked, EndsLap, AllLie, Registered, WalkToLatest, Checksum, ReadHeader, AllOfLen;
    ChainReadback(mem, pid, q, chain);
    ChainInBounds(mem, pid, q, chain);
    FirstReads(mem, pid, q, chain[0]);
    WalkReachesLast(mem, pid, q, chain, 0);
    FirstLenOfChain(mem, pid, q, chain);
    ApplyNothing(mem);
    hide ChainInv, Readback;
  }

  /**
   * A partition with elements: registering it again yields the record it had, but for the RAM copy of the first
   * header, which byte-unit storage does not need, and writes nothing.
   */
  lemma ScanRecovers(mem: seq<byte>, pid: u16, p: Partition, log: Log, blank: Partition)
    requires LogInv(mem, pid, p, log) && SameRequest(pid, p, blank)
    ensures Scan(mem, pid, blank) == Scanned(Success, p.(firstElementHeader := blank.firstElementHeader), [])
  {
    var chain := log.chain;
    var q := blank.(metadata := p.metadata);
    assert Registered(mem, pid, q) && q.firstElementAddress == p.firstElementAddress;
    FreshFindsFirst(mem, pid, p, blank, chain[0]);
    ChainOfRecord(mem, pid, p, q, chain);
    hide ChainInv, OlderInv, Registered, ReadFirst, FindLatest, AllOfLen, Kept;
    LatestRecovered(mem, pid, q, chain);
    ApplyNothing(mem);
    hide SameRequest;
  }

  lemma FirstLenOfChain(mem: seq<byte>, pid: u16, p: Partition, chain: seq<Elem>)
    requires ChainInv(mem, pid, p, chain)
    ensures p.metadata.firstElementLen == |chain[0].data|
  {
  }

  /** A copy of the first header is judged by what the request asks for. */
  lemma SameVerdict(pid: u16, p: Partition, blank: Partition, blob: seq<byte>)
    requires |blob| == FirstLen(pid) && SameRequest(pid, p, blank)
    ensures Judge(pid, blank, blob) == Judge(pid, p, blob)
  {
    hide BlobCrc, DeserializeMetadata, DeserializeHeader, HeaderLen;
  }

  /** An empty partition: registering it again finds nothing, as before. */
  lemma ScanFindsNothing(mem: seq<byte>, pid: u16, p: Partition, blank: Partition)
    requires EmptyInv(mem, pid, p) && SameRequest(pid, p, blank)
    ensures Scan(mem, pid, blank) == Scanned(Success, blank.(hasFirstElement := false), [])
  {
    hide Judge;
    var n, start, swap := FirstLen(pid), p.firstElementAddress, SwapAddress(pid);
    assert start + n <= |mem| && swap + n <= |mem|;
    hide Registered, HeaderLen, SwapAddress;
    SameVerdict(pid, p, blank, mem[start..start + n]);
    SameVerdict(pid, p, blank, mem[swap..swap + n]);
  }
}
