/** Clearing a partition, and what erased storage looks like to the filesystem. */
module FsClear {
  import opened Bytes
  import opened Words
  import opened CrcRegister
  import opened Crc16
  import opened Units
  import opened FsTypes
  import opened FsSpec
  import opened FsLog
  import opened FsStore
  import opened FsKeep

  // ---- the checksum of erased bytes ----

  /** The register after `k` erased bytes. */
  function AfterErased(k: nat): Word {
    if k == 0 then ONES else ByteIn(AfterErased(k - 1), ALL, ALL)
  }

  lemma {:induction false} BlockOfErased(k: nat)
    ensures Block(Repeat(0xFF, k), ONES) == AfterErased(k)
  {
    hide ByteIn, Step;
    if k > 0 {
      BlockOfErased(k - 1);
      assert Repeat(0xFF, k) == Repeat(0xFF, k - 1) + [0xFF];
      BlockSnoc(Repeat(0xFF, k - 1), 0xFF, ONES);
      assert Widen(0xFF) == ByteWord(ALL, ALL);
      StepForm(AfterErased(k - 1), ALL, ALL);
    }
  }

  // The register after 6, 12, 14, 16 and 18 erased bytes.

  const ERASED_6 := Word(Nibble(true, false, false, true), Nibble(true, false, false, true),
    Nibble(true, true, false, false), Nibble(true, true, true, true))
  const ERASED_12 := Word(Nibble(false, true, false, false), Nibble(false, true, true, true),
    Nibble(true, true, false, true), Nibble(true, false, false, false))
  const ERASED_14 := Word(Nibble(true, true, false, false), Nibble(false, false, true, true),
    Nibble(false, false, true, false), Nibble(false, false, false, true))
  const ERASED_16 := Word(Nibble(false, true, true, false), Nibble(true, false, true, false),
    Nibble(false, true, false, false), Nibble(true, false, true, true))
  const ERASED_18 := Word(Nibble(false, false, false, false), Nibble(false, false, false, false),
    Nibble(false, true, false, false), Nibble(false, false, false, true))

  function TwoErased(w: Word): Word { ByteIn(ByteIn(w, ALL, ALL), ALL, ALL) }

  lemma ErasedLaps()
    ensures TwoErased(TwoErased(TwoErased(ONES))) == ERASED_6
    ensures TwoErased(TwoErased(TwoErased(ERASED_6))) == ERASED_12
  {
  }

  lemma ErasedTail()
    ensures TwoErased(ERASED_12) == ERASED_14 && TwoErased(ERASED_14) == ERASED_16 && TwoErased(ERASED_16) == ERASED_18
  {
  }

  lemma AfterTwoErased(k: nat)
    ensures AfterErased(k + 2) == TwoErased(AfterErased(k))
  {
    hide ByteIn;
    assert AfterErased(k + 1) == ByteIn(AfterErased(k), ALL, ALL);
  }

  lemma NoneErased()
    ensures AfterErased(0) == ONES
  {
  }

  lemma ErasedRegister(k: nat)
    requires k in {14, 16, 18}
    ensures AfterErased(k) != ONES
  {
    hide TwoErased, AfterErased, ByteIn;
    NoneErased();
    AfterTwoErased(0);
    AfterTwoErased(2);
    AfterTwoErased(4);
    AfterTwoErased(6);
    AfterTwoErased(8);
    AfterTwoErased(10);
    AfterTwoErased(12);
    AfterTwoErased(14);
    AfterTwoErased(16);
    ErasedLaps();
    ErasedTail();
  }

  lemma OnesAreMaximal()
    ensures Value(ONES) == 0xFFFF
  {
  }

  /** An erased header never passes for a header. */
  lemma ErasedIsBad(pid: u16, p: Partition)
    ensures Judge(pid, p, ErasedBlob(pid)) == BadCrc
  {
    var blob, n := ErasedBlob(pid), FirstLen(pid);
    assert blob[2..] == Repeat(0xFF, n - 2);
    assert blob[..METADATA_SIZE][0..2] == [0xFF, 0xFF];
    assert Decode16([0xFF, 0xFF]) == 0xFFFF;
    assert n - 2 in {14, 16, 18};
    BlockOfErased(n - 2);
    ErasedRegister(n - 2);
    hide Block, AfterErased, Value, WordOf;
    WordOfValue(AfterErased(n - 2));
    WordOfValue(ONES);
    assert Value(ONES) == 0xFFFF by { OnesAreMaximal(); }
  }

  // ---- clearing ----

  /** The writes of a clear on byte units: the copy in the swap page first, the header at the start last. */
  lemma ClearWrites(g: Geometry, mem: seq<byte>, pid: u16, p: Partition, it: Iterator, log: Log)
    returns (backup: seq<WriteOp>)
    requires ByteUnits(g) && TotalSize(g) == |mem| && PartInv(mem, pid, p, log)
    ensures var r := ClearPartition(g, mem, pid, p, it);
      && r.ret == Success && r.iter == it && AllFit(|mem|, r.writes)
      && (backup == [] || backup == [WriteOp(SwapAddress(pid), ErasedBlob(pid))])
      && r.writes == backup + [WriteOp(p.firstElementAddress, ErasedBlob(pid))]
      && r.part == p.(hasFirstElement := false, latestElementAddress := p.firstElementAddress, latestElementLen := 0,
                      latestRecordId := if log.chain == [] then 1 else IncrementRecordId(log.chain[0].id))
      && Holds(Apply(mem, r.writes), SwapAddress(pid), ErasedBlob(pid))
      && Holds(Apply(mem, r.writes), p.firstElementAddress, ErasedBlob(pid))
  {
    hide Judge, Apply, Backup, LiesFirst, AllLie, Linked, EndsLap, OlderInv, ErasedBlob, Checksum;
    PartIsStable(mem, pid, p, log);
    if log.chain != [] {
      ReadFirstElem(mem, pid, p, log.chain[0]);
    }
    var start, swap, blob := p.firstElementAddress, SwapAddress(pid), ErasedBlob(pid);
    backup := Backup(g, mem, swap, blob);
    BackupInSlot(g, mem, swap, blob);
    ApplyNothing(mem);
    assert [] + backup == backup;
    hide ReadFirst, Stable, PartInv, Registered;
    assert swap + |blob| <= start;
    ApplySnoc(mem, backup, WriteOp(start, blob));
    HoldsWritten(Apply(mem, backup), start, blob);
    HoldsInAgreeing(Apply(mem, backup), Write(Apply(mem, backup), start, blob), swap, swap + |blob|, swap, blob);
  }

  /** After a clear the partition is empty, whatever it held before; the identifiers go on from that of its first element. */
  lemma ClearEmpties(g: Geometry, mem: seq<byte>, pid: u16, p: Partition, it: Iterator, log: Log)
    requires ByteUnits(g) && TotalSize(g) == |mem| && PartInv(mem, pid, p, log)
    ensures var r := ClearPartition(g, mem, pid, p, it);
      && r.ret == Success && AllFit(|mem|, r.writes)
      && PartInv(Apply(mem, r.writes), pid, r.part, EMPTY_LOG)
      && ReadFirst(Apply(mem, r.writes), pid, r.part).ret == NotFound
      && Placement(pid, r.part, 0).address == p.firstElementAddress
      && Placement(pid, r.part, 0).recordId == (if log.chain == [] || log.chain[0].id >= 0xFFFE then 1 else log.chain[0].id + 1)
  {
    PartIsStable(mem, pid, p, log);
    hide Judge, Apply, ErasedBlob, ClearPartition, PartInv;
    var backup := ClearWrites(g, mem, pid, p, it, log);
    var r := ClearPartition(g, mem, pid, p, it);
    ErasedIsEmpty(Apply(mem, r.writes), pid, r.part);
  }

  lemma ErasedIsEmpty(mem: seq<byte>, pid: u16, p: Partition)
    requires Registered(mem, pid, p)
    requires Holds(mem, SwapAddress(pid), ErasedBlob(pid)) && Holds(mem, p.firstElementAddress, ErasedBlob(pid))
    ensures ReadFirst(mem, pid, p).ret == NotFound
  {
    hide Judge, ErasedBlob, Registered;
    ErasedIsBad(pid, p);
  }
}
