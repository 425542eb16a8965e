/**
 * The RAM copy of the first header that registration does not load, and the swap page copy that an append in the first
 * unit makes of it on storage with larger units (filesystem_lib.c).
 */
module FsStaleCopy {
  import opened Bytes
  import opened Words
  import opened CrcRegister
  import opened Crc16
  import opened Units
  import opened FsTypes
  import opened FsSpec
  import opened FsLog
  import opened FsStore
  import opened FsRecovery

  /** Two headers that no checksum tells apart. */
  predicate SameCheck(pid: u16, h: Header, k: Header) {
    Checksum(SerializeHeader(pid, h)) == Checksum(SerializeHeader(pid, k))
  }

  lemma RestOfBlob(pid: u16, m: Metadata, h: Header)
    ensures FirstBlob(pid, m, h)[2..] == SerializeMetadata(m)[2..] + SerializeHeader(pid, h)
    ensures FirstBlob(pid, m, h)[..METADATA_SIZE] == SerializeMetadata(m)
    ensures FirstBlob(pid, m, h)[METADATA_SIZE..] == SerializeHeader(pid, h)
  {
    hide SerializeMetadata, SerializeHeader;
  }

  lemma BlobCrcAgrees(pid: u16, m: Metadata, h: Header, k: Header)
    ensures BlobCrc(FirstBlob(pid, m, h)) == BlobCrc(FirstBlob(pid, m, k)) <==> SameCheck(pid, h, k)
  {
    RestOfBlob(pid, m, h);
    RestOfBlob(pid, m, k);
    hide FirstBlob, SerializeMetadata, SerializeHeader, Checksum;
    PrefixDoesNotMatter(SerializeMetadata(m)[2..], SerializeHeader(pid, h), SerializeHeader(pid, k));
  }

  lemma SealedCrc(pid: u16, m: Metadata, h: Header)
    requires m == Sealed(pid, m, h)
    ensures m.headerCrc == BlobCrc(FirstBlob(pid, m, h))
  {
    SealIgnoresSeal(pid, m, h, 0);
    hide FirstBlob, Checksum;
  }

  /** Sealed metadata in front of another header: the checksum matches if and only if it cannot tell the headers apart. */
  lemma OtherHeaderIsGoodIff(pid: u16, p: Partition, m: Metadata, h: Header, k: Header)
    requires Storable(m) && Consistent(pid, p, m) && m == Sealed(pid, m, h)
    ensures Judge(pid, p, FirstBlob(pid, m, k)) == if SameCheck(pid, h, k) then Good(m, Kept(pid, k)) else BadCrc
  {
    SealedCrc(pid, m, h);
    BlobCrcAgrees(pid, m, h, k);
    RestOfBlob(pid, m, k);
    MetadataRoundTrip(m);
    HeaderRoundTrip(pid, k);
    hide FirstBlob, SerializeMetadata, SerializeHeader, DeserializeMetadata, DeserializeHeader, Checksum, BlobCrc, SameCheck, Sealed;
  }

  // ---- which headers are told apart ----

  lemma SameBytes(pid: u16, h: Header, k: Header)
    ensures SerializeHeader(pid, h) == SerializeHeader(pid, k) <==> Kept(pid, h) == Kept(pid, k)
  {
    HeaderRoundTrip(pid, h);
    HeaderRoundTrip(pid, k);
    hide DeserializeHeader;
  }

  /** Headers that differ in one field only are told apart. */
  lemma OneFieldTells(pid: u16, h: Header, k: Header)
    requires Kept(pid, h) != Kept(pid, k)
    requires || Kept(pid, k) == Kept(pid, h.(recordId := k.recordId))
             || Kept(pid, k) == Kept(pid, h.(previousXorCurrent := k.previousXorCurrent))
             || Kept(pid, k) == Kept(pid, h.(elementCrc := k.elementCrc))
    ensures !SameCheck(pid, h, k)
  {
    SameBytes(pid, h, k);
    hide Checksum, Encode16;
    var a, b := SerializeHeader(pid, h), SerializeHeader(pid, k);
    if Kept(pid, k) == Kept(pid, h.(recordId := k.recordId)) {
      BurstChangesChecksum(a, b, 0);
    } else if Kept(pid, k) == Kept(pid, h.(previousXorCurrent := k.previousXorCurrent)) {
      BurstChangesChecksum(a, b, 2);
    } else {
      BurstChangesChecksum(a, b, HeaderLen(pid) - 2);
    }
  }

  /** In a static partition without element checksums a header is its record identifier: any other one is told apart. */
  lemma IdsTell(pid: u16, h: Header, k: Header)
    requires !IsDynamic(pid) && !HasCrc(pid)
    ensures SameCheck(pid, h, k) <==> h.recordId == k.recordId
  {
    SameBytes(pid, h, k);
    hide SerializeHeader, Checksum;
    if h.recordId != k.recordId {
      OneFieldTells(pid, h, k);
    }
  }

  // ---- the copy in the swap page ----

  /** Whatever the units, after a backup the blob stands in its slot. */
  lemma BackupLeaves(g: Geometry, mem: seq<byte>, swap: nat, blob: seq<byte>)
    requires Regular(g) && TotalSize(g) == |mem| && swap + |blob| <= |mem| && |blob| > 0
    ensures Holds(Apply(mem, Backup(g, mem, swap, blob)), swap, blob)
  {
    if mem[swap..swap + |blob|] == blob {
      ApplyNothing(mem);
    } else {
      UnitsHold(g, swap, |blob|);
      var limits, w := UnitLimits(g, swap, |blob|), Write(mem, swap, blob);
      hide UnitLimits, Regular, TotalSize;
      var op := WriteOp(limits.start, w[limits.start..limits.end + 1]);
      ApplySnoc(mem, [], op);
      ApplyNothing(mem);
      assert [] + [op] == [op];
      assert Write(mem, op.address, op.data) == w;
      HoldsWritten(mem, swap, blob);
    }
  }

  /** An append in the first unit copies the first header from RAM to the swap page, as it stands there. */
  lemma AppendCopiesRecord(g: Geometry, mem: seq<byte>, pid: u16, q: Partition, place: Place, data: seq<byte>)
    requires Regular(g) && TotalSize(g) == |mem| && Registered(mem, pid, q) && |data| < 0x1_0000
    requires q.firstElementAddress < place.address < |mem| && UnitStart(g, place.address) == q.firstElementAddress
    ensures Holds(Apply(mem, CommitBackup(g, mem, pid, q, place, data)), SwapAddress(pid), RecordBlob(pid, q))
  {
    RoomForCopies(mem, pid, q);
    hide Registered, RecordBlob, HeaderLen, SwapAddress, Apply, Backup;
    BackupLeaves(g, mem, SwapAddress(pid), RecordBlob(pid, q));
  }

  /** The header at the partition start is lost, the slot in the swap page holds `blob`. */
  predicate StartLost(mem: seq<byte>, pid: u16, p: Partition, blob: seq<byte>) {
    && SwapAddress(pid) + FirstLen(pid) <= p.firstElementAddress && p.firstElementAddress + FirstLen(pid) <= |mem|
    && Judge(pid, p, mem[p.firstElementAddress..p.firstElementAddress + FirstLen(pid)]) == BadCrc
    && |blob| == FirstLen(pid) && Holds(mem, SwapAddress(pid), blob)
  }

  lemma LostIsReadFromCopy(mem: seq<byte>, pid: u16, p: Partition, blob: seq<byte>)
    requires StartLost(mem, pid, p, blob)
    ensures ReadFirst(mem, pid, p) == match Judge(pid, p, blob)
                                      case Good(m, h) => HeaderRead(Success, p.(metadata := m), h, [WriteOp(p.firstElementAddress, blob)])
                                      case _ => HeaderRead(NotFound, p, NO_HEADER, [])
  {
    hide Judge, HeaderLen, SwapAddress;
  }

  /**
   * A partition that holds `log` is registered again, and an append in its first unit makes the copy. If the header at the
   * start is lost then, reading it falls back on that copy. It passes if and only if the checksum cannot tell the header that
   * was in RAM from the first one, and it is the first one if and only if they are the same but for what the partition does
   * not keep.
   */
  lemma CopyRestoresIff(mem: seq<byte>, mem': seq<byte>, pid: u16, p: Partition, log: Log, blank: Partition, r: Partition)
    requires LogInv(mem, pid, p, log) && SameRequest(pid, p, blank) && SameRequest(pid, p, r)
    requires StartLost(mem', pid, r, RecordBlob(pid, Scan(mem, pid, blank).part))
    ensures var h, first := blank.firstElementHeader, ElemHeader(log.chain[0]);
            var read := ReadFirst(mem', pid, r);
            var restored := HeaderRead(Success, r.(metadata := p.metadata), Kept(pid, first),
                                       [WriteOp(r.firstElementAddress, FirstBlob(pid, p.metadata, first))]);
      && read.ret == (if SameCheck(pid, first, h) then Success else NotFound)
      && (read == restored <==> Kept(pid, h) == Kept(pid, first))
  {
    var h, first := blank.firstElementHeader, ElemHeader(log.chain[0]);
    ScanRecovers(mem, pid, p, log, blank);
    FirstIsSealed(mem, pid, p, log, r);
    hide LogInv, Sealed, SameRequest, StartLost, ReadFirst, Scan, Judge, FirstBlob, SameCheck, ElemHeader, Consistent, Storable;
    LostIsReadFromCopy(mem', pid, r, RecordBlob(pid, Scan(mem, pid, blank).part));
    OtherHeaderIsGoodIff(pid, r, p.metadata, first, h);
    SameBlobs(pid, p.metadata, first, h);
    hide Kept;
  }

  lemma FirstIsSealed(mem: seq<byte>, pid: u16, p: Partition, log: Log, r: Partition)
    requires LogInv(mem, pid, p, log) && SameRequest(pid, p, r)
    ensures Storable(p.metadata) && Consistent(pid, r, p.metadata)
    ensures p.metadata == Sealed(pid, p.metadata, ElemHeader(log.chain[0]))
  {
    hide Sealed, Checksum, AllLie, Linked, EndsLap, OlderInv, Holds, AllOfLen;
  }

  /** Headers that agree in what the partition keeps have the same bytes, which no checksum tells apart. */
  lemma SameBlobs(pid: u16, m: Metadata, h: Header, k: Header)
    ensures FirstBlob(pid, m, h) == FirstBlob(pid, m, k) <==> Kept(pid, h) == Kept(pid, k)
    ensures Kept(pid, h) == Kept(pid, k) ==> SameCheck(pid, h, k)
  {
    SameBytes(pid, h, k);
    RestOfBlob(pid, m, h);
    RestOfBlob(pid, m, k);
    hide SerializeMetadata, SerializeHeader, Checksum, Kept;
  }

  /** RAM is zero after a reset: in a static partition without element checksums such a copy never passes. */
  lemma CopyOfResetIsLost(mem: seq<byte>, mem': seq<byte>, pid: u16, p: Partition, log: Log, blank: Partition, r: Partition)
    requires LogInv(mem, pid, p, log) && SameRequest(pid, p, blank) && SameRequest(pid, p, r)
    requires StartLost(mem', pid, r, RecordBlob(pid, Scan(mem, pid, blank).part))
    requires !IsDynamic(pid) && !HasCrc(pid) && blank.firstElementHeader == NO_HEADER
    ensures ReadFirst(mem', pid, r).ret == NotFound
  {
    CopyRestoresIff(mem, mem', pid, p, log, blank, r);
    FirstHasId(mem, pid, p, log);
    hide LogInv, SameRequest, StartLost, ReadFirst, SameCheck, IsRecordId;
    IdsTell(pid, ElemHeader(log.chain[0]), NO_HEADER);
  }

  lemma FirstHasId(mem: seq<byte>, pid: u16, p: Partition, log: Log)
    requires LogInv(mem, pid, p, log)
    ensures log.chain[0].id > 0
  {
    hide Sealed, Checksum, AllLie, Linked, EndsLap, OlderInv, Holds, AllOfLen;
  }

  // ---- an input for each case ----

  lemma GeneratorVanishes()
    ensures ByteIn(ZERO, NONE, NONE) == ZERO
    ensures ByteIn(ZERO, NONE, Nibble(false, false, false, true)) == GENERATOR
    ensures ByteIn(ByteIn(GENERATOR, Nibble(false, false, false, true), NONE),
                   Nibble(false, false, true, false), Nibble(false, false, false, true)) == ZERO
  {
  }

  lemma BlockOfFour(a: byte, b: byte, c: byte, d: byte, crc: Word)
    ensures Block([a, b, c, d], crc)
         == ByteIn(ByteIn(ByteIn(ByteIn(crc, HighNibble(a), LowNibble(a)), HighNibble(b), LowNibble(b)),
                          HighNibble(c), LowNibble(c)), HighNibble(d), LowNibble(d))
  {
    hide ByteIn, Step, HighNibble, LowNibble;
    BlockOfTwo([], a, b, [c, d], crc);
    assert [] + [a, b] + [c, d] == [a, b, c, d];
    var w := Step(Step(crc, Widen(a)), Widen(b));
    BlockOfTwo([], c, d, [], w);
    assert [] + [c, d] + [] == [c, d];
    StepForm(crc, HighNibble(a), LowNibble(a));
    StepForm(Step(crc, Widen(a)), HighNibble(b), LowNibble(b));
    StepForm(w, HighNibble(c), LowNibble(c));
    StepForm(Step(w, Widen(c)), HighNibble(d), LowNibble(d));
  }

  const ZEROS: seq<byte> := [0, 0, 0, 0]
  const GENERATOR_BYTES: seq<byte> := [0, 1, 0x10, 0x21]

  lemma CollidingBytes()
    ensures SerializeHeader(0x8000, Header(0, 0, 0)) == ZEROS
    ensures SerializeHeader(0x8000, Header(1, 0x1021, 0)) == GENERATOR_BYTES
  {
  }

  lemma CollidingBlocks()
    ensures Block(ZEROS, ZERO) == ZERO == Block(GENERATOR_BYTES, ZERO)
  {
    var one, two := Nibble(false, false, false, true), Nibble(false, false, true, false);
    assert NibbleOf(0) == NONE && NibbleOf(1) == one && NibbleOf(2) == two;
    GeneratorVanishes();
    hide ByteIn, Block, NibbleOf;
    BlockOfFour(0, 0, 0, 0, ZERO);
    BlockOfFour(0, 1, 0x10, 0x21, ZERO);
  }

  /** The generator polynomial itself as a difference: two headers that differ, and that no checksum tells apart. */
  lemma ChecksumCollides()
    ensures SameCheck(0x8000, Header(0, 0, 0), Header(1, 0x1021, 0))
    ensures Kept(0x8000, Header(0, 0, 0)) != Kept(0x8000, Header(1, 0x1021, 0))
  {
    hide SerializeHeader, Block, Value;
    CollidingBytes();
    CollidingBlocks();
    StartDoesNotMatter(ZEROS, GENERATOR_BYTES, ZERO, ONES);
  }

  // Flash with units of 1024 bytes; a partition of one unit behind the swap page, that holds one element of four bytes.
  const PAGES: Geometry := [Device(0x2000, 0x400)]
  const FOUR: seq<byte> := [9, 9, 9, 9]
  const FIRST := Elem(0x400, 1, 0, FOUR)
  const SEALED := Sealed(0, Metadata(0, 0, 0x400, 4, 0x400), ElemHeader(FIRST))
  const RECORD := Partition(SEALED, 0x400, true, ElemHeader(FIRST), 0x400, 1, 4)
  const CONTENTS := Write(Repeat(0, 0x2000), 0x400, FirstBlob(0, SEALED, ElemHeader(FIRST)) + FOUR)

  lemma FirstStands()
    ensures LiesFirst(CONTENTS, 0, RECORD, FIRST)
  {
    HoldsWritten(Repeat(0, 0x2000), 0x400, FirstBlob(0, SEALED, ElemHeader(FIRST)) + FOUR);
    hide Checksum, BlobCrc, FirstBlob, Holds;
  }

  lemma NothingFollows()
    ensures EndsLap(CONTENTS, 0, RECORD, FIRST)
  {
    assert CONTENTS[0x414] == 0 && CONTENTS[0x415] == 0;
    hide FirstBlob, BlobCrc, Checksum, ElemHeader;
  }

  lemma OneElement()
    ensures LogInv(CONTENTS, 0, RECORD, Log([], [FIRST], false))
  {
    FirstStands();
    NothingFollows();
    assert [FIRST][1..] == [];
    hide LiesFirst, EndsLap, BlobCrc, Checksum, FirstBlob;
  }

  /** The next element goes to the first unit. */
  lemma NextInFirstUnit(q: Partition)
    requires q == RECORD.(firstElementHeader := NO_HEADER)
    ensures Regular(PAGES) && TotalSize(PAGES) == 0x2000 && Placement(0, q, 4).address == 0x414
    ensures UnitStart(PAGES, 0x414) == 0x400 == q.firstElementAddress
  {
    hide BlobCrc, FirstBlob, Xor16, ElemHeader;
  }

  lemma RecordIsRegistered(q: Partition)
    requires q == RECORD.(firstElementHeader := NO_HEADER)
    ensures |CONTENTS| == 0x2000 && Registered(CONTENTS, 0, q) && SameRequest(0, RECORD, q)
    ensures Storable(SEALED) && Consistent(0, q, SEALED) && SEALED == Sealed(0, SEALED, ElemHeader(FIRST))
    ensures Scanned(Success, RECORD.(firstElementHeader := q.firstElementHeader), []).part == q
  {
    hide Checksum, BlobCrc, FirstBlob, ElemHeader;
  }

  /** With RAM zero at the registration, the copy that its store makes does not pass. */
  lemma StaleCopyInput(q: Partition)
    requires q == RECORD.(firstElementHeader := NO_HEADER)
    ensures Scan(CONTENTS, 0, q).part == q && Registered(CONTENTS, 0, q) && TotalSize(PAGES) == |CONTENTS|
    ensures q.firstElementAddress < Placement(0, q, 4).address < |CONTENTS|
    ensures Regular(PAGES) && UnitStart(PAGES, Placement(0, q, 4).address) == q.firstElementAddress
    ensures Judge(0, q, RecordBlob(0, q)) == BadCrc
  {
    OneElement();
    RecordIsRegistered(q);
    NextInFirstUnit(q);
    ScanRecovers(CONTENTS, 0, RECORD, Log([], [FIRST], false), q);
    IdsTell(0, ElemHeader(FIRST), NO_HEADER);
    OtherHeaderIsGoodIff(0, q, SEALED, ElemHeader(FIRST), NO_HEADER);
    hide LogInv, Scan, Judge, SameCheck, Sealed, Checksum, FirstBlob, Placement, UnitStart, TotalSize, Regular, Write, Consistent,
      Storable, SameRequest, Registered;
  }
}
