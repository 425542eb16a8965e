/** What a successful store does to storage and to the log. */
module FsStore {
  import opened Bytes
  import opened Words
  import opened Crc16
  import opened Units
  import opened FsTypes
  import opened FsSpec
  import opened FsLog

  /** The element a store writes. */
  function NewElem(place: Place, data: seq<byte>): Elem { Elem(place.address, place.recordId, place.xor, data) }

  /** The elements of `s` from the first one at or behind `bound` on. */
  function From(s: seq<Elem>, bound: nat): (r: seq<Elem>)
    ensures |r| <= |s| && r == s[|s| - |r|..]
    ensures r != [] ==> bound <= r[0].address
    ensures |r| < |s| ==> s[|s| - |r| - 1].address < bound
  {
    if s == [] then []
    else if s[0].address >= bound then s
    else From(s[1..], bound)
  }

  /** How far a store reaches: to the end of its element, or over the stale header behind it that it erases. */
  function Reach(mem: seq<byte>, pid: u16, p: Partition, e: Elem): nat {
    End(pid, p.firstElementAddress, e) + (if NoNext(mem, pid, p, e) then 0 else HeaderLen(pid))
  }

  /** The log after element `e` has been stored with the given reach. */
  function AfterStore(pid: u16, start: nat, log: Log, e: Elem, reach: nat): Log {
    if e.address == start then
      var older := From(log.chain, reach);
      Log(older, [e], older != [] && End(pid, start, e) < Last(log.chain).address)
    else
      var older := From(log.older, reach);
      Log(older, log.chain + [e], log.linked && older != [])
  }

  const EMPTY_LOG := Log([], [], false)

  /** A registered partition, with or without elements. */
  predicate PartInv(mem: seq<byte>, pid: u16, p: Partition, log: Log) {
    if log.chain == [] then log == EMPTY_LOG && EmptyInv(mem, pid, p) else LogInv(mem, pid, p, log)
  }

  lemma PartIsStable(mem: seq<byte>, pid: u16, p: Partition, log: Log)
    requires PartInv(mem, pid, p, log)
    ensures Stable(mem, pid, p)
    ensures Registered(mem, pid, p) && (p.hasFirstElement <==> log.chain != [])
    ensures IsRecordId(p.latestRecordId)
  {
    hide Stable, OlderInv, EndsLap, Linked, AllLie, LiesFirst, ReadFirst, Lies;
    if log.chain == [] {
      EmptyIsStable(mem, pid, p);
    } else {
      LogIsStable(mem, pid, p, log);
      LatestIsRecord(mem, pid, p, log.chain);
    }
  }

  lemma LatestIsRecord(mem: seq<byte>, pid: u16, p: Partition, chain: seq<Elem>)
    requires ChainInv(mem, pid, p, chain)
    ensures IsRecordId(Last(chain).id)
  {
    ChainInBounds(mem, pid, p, chain);
    hide ChainInv;
  }

  // ---- the writes of a store ----

  /** On byte units the backup touches nothing but its slot of the swap page. */
  lemma BackupInSlot(g: Geometry, mem: seq<byte>, swap: nat, blob: seq<byte>)
    requires ByteUnits(g) && TotalSize(g) == |mem| && swap + |blob| <= |mem| && |blob| > 0
    ensures var ws := Backup(g, mem, swap, blob);
      && (ws == [] || ws == [WriteOp(swap, blob)])
      && AllFit(|mem|, ws) && Holds(Apply(mem, ws), swap, blob)
  {
    ByteUnitStart(g, swap);
    ByteUnitStart(g, swap + |blob| - 1);
    var w := Write(mem, swap, blob);
    assert w[swap..swap + |blob|] == blob;
    var ws := Backup(g, mem, swap, blob);
    if ws != [] {
      assert Apply(w, ws[1..]) == w;
    }
  }

  /** On byte units only a store at the start makes a backup, and makes it in full. */
  lemma CommitBackupInSlot(g: Geometry, mem: seq<byte>, pid: u16, p: Partition, place: Place, data: seq<byte>)
    requires ByteUnits(g) && TotalSize(g) == |mem| && Registered(mem, pid, p) && |data| < 0x1_0000
    requires place.address < |mem|
    ensures var ws := CommitBackup(g, mem, pid, p, place, data);
            var bytes := HeadBytes(pid, p, place, data);
      && (ws == [] || (place.address == p.firstElementAddress && ws == [WriteOp(SwapAddress(pid), bytes)]))
      && AllFit(|mem|, ws)
      && (place.address == p.firstElementAddress ==> Holds(Apply(mem, ws), SwapAddress(pid), bytes))
  {
    hide RecordBlob, WithHeader, NewHeader, SerializeHeader;
    ByteUnitStart(g, place.address);
    BackupInSlot(g, mem, SwapAddress(pid), RecordBlob(pid, WithHeader(pid, p, place, data)));
  }

  /** The element, head and payload, stands in storage after the writes. */
  lemma ElementStored(mem: seq<byte>, clear: seq<WriteOp>, backup: seq<WriteOp>, address: nat, bytes: seq<byte>, data: seq<byte>)
    requires AllFit(|mem|, clear) && AllFit(|mem|, backup) && address + |bytes| + |data| <= |mem|
    ensures var ws := StoreWrites(clear, backup, address, bytes, data);
            AllFit(|mem|, ws) && Holds(Apply(mem, ws), address, bytes + data)
  {
    hide Apply;
    var before := clear + backup;
    ApplyConcat(mem, clear, backup);
    var m1 := Apply(mem, before);
    var m2 := Write(m1, address, bytes);
    var m3 := Write(m2, address + |bytes|, data);
    ApplySnoc(mem, before, WriteOp(address, bytes));
    HoldsWritten(m1, address, bytes);
    HoldsInAgreeing(m2, m3, address, address + |bytes|, address, bytes);
    HoldsWritten(m2, address + |bytes|, data);
    HoldsSplit(m3, address, bytes, data);
    var ws := before + [WriteOp(address, bytes)];
    if data == [] {
      assert ws + [] == ws;
      assert m3 == m2;
    } else {
      ApplySnoc(mem, ws, WriteOp(address + |bytes|, data));
    }
  }

  // ---- the stale header behind the new element ----

  /** The stale header behind `e`, if it has to be erased. */
  function ClearOf(mem: seq<byte>, pid: u16, p: Partition, e: Elem): seq<WriteOp> {
    if NoNext(mem, pid, p, e) then []
    else [WriteOp(End(pid, p.firstElementAddress, e), Repeat(0xFF, HeaderLen(pid)))]
  }

  /** Looking for the element behind `e` finds one there exactly if the header there continues `e`. */
  lemma NextFound(mem: seq<byte>, pid: u16, p: Partition, e: Elem)
    requires Registered(mem, pid, p) && |e.data| < 0x1_0000 && p.firstElementAddress <= e.address
    requires Readable(mem, pid, p.firstElementAddress, e)
    ensures var n := NextHeader(mem, pid, p, e.address, e.id, |e.data|);
      && (n.ret == Success && n.address > e.address <==> !NoNext(mem, pid, p, e))
      && (n.ret == Success && n.address > e.address ==> n.address == End(pid, p.firstElementAddress, e))
  {
    hide ReadFirst, DeserializeHeader, Apply, AllFit, HeaderLen, FullHeaderLen, IncrementRecordId;
  }

  lemma ClearIffNext(mem: seq<byte>, pid: u16, p: Partition, e: Elem)
    requires Registered(mem, pid, p) && |e.data| < 0x1_0000 && p.firstElementAddress <= e.address
    requires Readable(mem, pid, p.firstElementAddress, e)
    ensures ClearNext(pid, NextHeader(mem, pid, p, e.address, e.id, |e.data|), e.address) == ClearOf(mem, pid, p, e)
  {
    hide NoNext, NextHeader, AllFit, HeaderLen, FullHeaderLen, End, Registered, Readable;
    NextFound(mem, pid, p, e);
  }

  lemma ErasedIsNoRecord(pid: u16)
    ensures DeserializeHeader(pid, Repeat(0xFF, HeaderLen(pid))).recordId == 0xFFFF
  {
    assert Repeat(0xFF, HeaderLen(pid))[0..2] == [0xFF, 0xFF];
  }

  /** Where the writes of a store go: the element with the erased header behind it, and the swap slot. */
  lemma StoreWithin(clear: seq<WriteOp>, backup: seq<WriteOp>, address: nat, bytes: seq<byte>, data: seq<byte>,
                    reach: nat, lo2: nat, hi2: nat)
    requires Within(clear, address, reach, lo2, hi2) && Within(backup, address, reach, lo2, hi2)
    requires address + |bytes| + |data| <= reach
    ensures Within(StoreWrites(clear, backup, address, bytes, data), address, reach, lo2, hi2)
  {
  }

  /** Storage after the writes of a store: the element stands there, and nothing else has changed. */
  lemma StoreWritesEffect(mem: seq<byte>, clear: seq<WriteOp>, backup: seq<WriteOp>, address: nat, bytes: seq<byte>,
                          data: seq<byte>, reach: nat, lo2: nat, hi2: nat)
    requires AllFit(|mem|, clear) && AllFit(|mem|, backup) && address + |bytes| + |data| <= |mem|
    requires Within(clear, address, reach, lo2, hi2) && Within(backup, address, reach, lo2, hi2)
    requires address + |bytes| + |data| <= reach
    ensures var ws := StoreWrites(clear, backup, address, bytes, data);
      && AllFit(|mem|, ws)
      && Holds(Apply(mem, ws), address, bytes + data)
      && ChangedOnly(mem, Apply(mem, ws), address, reach, lo2, hi2)
  {
    hide StoreWrites, Apply, Holds, Within, AllFit, ChangedOnly;
    ElementStored(mem, clear, backup, address, bytes, data);
    StoreWithin(clear, backup, address, bytes, data, reach, lo2, hi2);
    ApplyWithin(mem, StoreWrites(clear, backup, address, bytes, data), address, reach, lo2, hi2);
  }
}
