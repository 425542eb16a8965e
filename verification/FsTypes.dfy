/** Records of the filesystem and their bytes in storage. */
module FsTypes {
  import opened Bytes
  import opened Words
  import opened Crc16

  const METADATA_SIZE := 14
  const MAX_PARTITIONS := 20
  const SWAP_SLOT_SIZE := METADATA_SIZE + 2 + 2 + 2
  const SWAP_PAGE_SIZE := MAX_PARTITIONS * SWAP_SLOT_SIZE

  datatype Ret = Success | NotFound | Internal | InvalidParam | NoMem | InvalidState | Forbidden | InvalidData

  datatype Metadata = Metadata(
    headerCrc: u16, partitionId: u16, partitionSize: nat, firstElementLen: u16, lastElementAddress: nat)

  datatype Header = Header(recordId: u16, previousXorCurrent: u16, elementCrc: u16)

  /** The RAM record of a partition. */
  datatype Partition = Partition(
    metadata: Metadata, firstElementAddress: nat, hasFirstElement: bool, firstElementHeader: Header,
    latestElementAddress: nat, latestRecordId: u16, latestElementLen: u16)

  /** The RAM record of a partition's iterator. */
  datatype Iterator = Iterator(currentAddress: nat, currentLen: u16, currentHeader: Header, valid: bool)

  // ---- partition identifiers and record identifiers ----

  /** The index of a partition: the identifier without its two flag bits. */
  function Index(pid: u16): nat { pid % 0x4000 }

  predicate IsDynamic(pid: u16) { pid >= 0x8000 }

  predicate HasCrc(pid: u16) { pid / 0x4000 % 2 == 1 }

  function HeaderLen(pid: u16): (n: nat)
    ensures 2 <= n <= 6
  {
    2 + (if IsDynamic(pid) then 2 else 0) + (if HasCrc(pid) then 2 else 0)
  }

  /** The metadata in front of the header of the first element only. */
  function FullHeaderLen(pid: u16, start: nat, address: nat): (n: nat)
    ensures n >= 2
  {
    if address == start then METADATA_SIZE + HeaderLen(pid) else HeaderLen(pid)
  }

  function SwapAddress(pid: u16): nat { Index(pid) * SWAP_SLOT_SIZE }

  /** Number of record identifiers in use: 0 and 0xFFFF are what empty storage reads as. */
  const RECORD_IDS := 0xFFFE

  predicate IsRecordId(id: u16) { 1 <= id <= RECORD_IDS }

  function IncrementRecordId(id: u16): (r: u16)
    ensures IsRecordId(r)
  {
    if id >= 0xFFFE then 1 else id + 1
  }

  function DecrementRecordId(id: u16): u16 {
    if id <= 1 then 0xFFFE else id - 1
  }

  /** The identifier `n` steps after `id`. */
  function RecordIdAfter(id: u16, n: int): (r: u16)
    ensures IsRecordId(r)
  {
    (id - 1 + n) % RECORD_IDS + 1
  }

  lemma DecrementUndoesIncrement(id: u16)
    requires IsRecordId(id)
    ensures DecrementRecordId(IncrementRecordId(id)) == id
    ensures IncrementRecordId(DecrementRecordId(id)) == id
  {
  }

  // ---- serialisation ----

  function SerializeMetadata(m: Metadata): (s: seq<byte>)
    ensures |s| == METADATA_SIZE
  {
    Encode16(m.headerCrc) + Encode16(m.partitionId) + Encode32(m.partitionSize)
    + Encode16(m.firstElementLen) + Encode32(m.lastElementAddress)
  }

  function DeserializeMetadata(s: seq<byte>): Metadata
    requires |s| == METADATA_SIZE
  {
    Metadata(Decode16(s[0..2]), Decode16(s[2..4]), Decode32(s[4..8]), Decode16(s[8..10]), Decode32(s[10..14]))
  }

  function SerializeHeader(pid: u16, h: Header): (s: seq<byte>)
    ensures |s| == HeaderLen(pid)
  {
    Encode16(h.recordId)
    + (if IsDynamic(pid) then Encode16(h.previousXorCurrent) else [])
    + (if HasCrc(pid) then Encode16(h.elementCrc) else [])
  }

  function DeserializeHeader(pid: u16, s: seq<byte>): Header
    requires |s| == HeaderLen(pid)
  {
    var crcAt := if IsDynamic(pid) then 4 else 2;
    Header(Decode16(s[0..2]),
           if IsDynamic(pid) then Decode16(s[2..4]) else 0,
           if HasCrc(pid) then Decode16(s[crcAt..crcAt + 2]) else 0)
  }

  /** What a header looks like after a trip through storage: the fields the partition does not keep read as 0. */
  function Kept(pid: u16, h: Header): Header {
    Header(h.recordId, if IsDynamic(pid) then h.previousXorCurrent else 0, if HasCrc(pid) then h.elementCrc else 0)
  }

  predicate Storable(m: Metadata) {
    m.partitionSize < 0x1_0000_0000 && m.lastElementAddress < 0x1_0000_0000
  }

  lemma MetadataRoundTrip(m: Metadata)
    requires Storable(m)
    ensures DeserializeMetadata(SerializeMetadata(m)) == m
  {
    var s := SerializeMetadata(m);
    assert s[0..2] == Encode16(m.headerCrc);
    assert s[2..4] == Encode16(m.partitionId);
    assert s[4..8] == Encode32(m.partitionSize);
    assert s[8..10] == Encode16(m.firstElementLen);
    assert s[10..14] == Encode32(m.lastElementAddress);
    hide Encode16, Decode16, Encode32, Decode32;
    Decode16Encode16(m.headerCrc);
    Decode16Encode16(m.partitionId);
    Decode32Encode32(m.partitionSize);
    Decode16Encode16(m.firstElementLen);
    Decode32Encode32(m.lastElementAddress);
  }

  lemma HeaderRoundTrip(pid: u16, h: Header)
    ensures DeserializeHeader(pid, SerializeHeader(pid, h)) == Kept(pid, h)
  {
    var s := SerializeHeader(pid, h);
    var crcAt := if IsDynamic(pid) then 4 else 2;
    hide Encode16, Decode16;
    assert s[0..2] == Encode16(h.recordId);
    assert IsDynamic(pid) ==> s[2..4] == Encode16(h.previousXorCurrent);
    assert HasCrc(pid) ==> s[crcAt..crcAt + 2] == Encode16(h.elementCrc);
    Decode16Encode16(h.recordId);
    Decode16Encode16(h.previousXorCurrent);
    Decode16Encode16(h.elementCrc);
  }

  // ---- metadata plus first header ----

  /** The bytes of metadata and first header, as they are stored twice. */
  function FirstBlob(pid: u16, m: Metadata, h: Header): (s: seq<byte>)
    ensures |s| == METADATA_SIZE + HeaderLen(pid)
  {
    SerializeMetadata(m) + SerializeHeader(pid, h)
  }

  /** The checksum over everything but the checksum field itself. */
  function BlobCrc(blob: seq<byte>): u16
    requires |blob| >= 2
  {
    Checksum(blob[2..])
  }

  /** The metadata with its checksum filled in. */
  function Sealed(pid: u16, m: Metadata, h: Header): Metadata {
    m.(headerCrc := BlobCrc(FirstBlob(pid, m.(headerCrc := 0), h)))
  }

  lemma SealIgnoresSeal(pid: u16, m: Metadata, h: Header, crc: u16)
    ensures FirstBlob(pid, m.(headerCrc := crc), h)[2..] == FirstBlob(pid, m, h)[2..]
  {
    var rest := Encode16(m.partitionId) + Encode32(m.partitionSize) + Encode16(m.firstElementLen)
                + Encode32(m.lastElementAddress) + SerializeHeader(pid, h);
    assert FirstBlob(pid, m, h) == Encode16(m.headerCrc) + rest;
    assert FirstBlob(pid, m.(headerCrc := crc), h) == Encode16(crc) + rest;
    assert FirstBlob(pid, m, h)[2..] == rest;
    assert FirstBlob(pid, m.(headerCrc := crc), h)[2..] == rest;
  }

  /** What the code makes of a blob. */
  datatype Verdict = BadCrc | Foreign | Good(metadata: Metadata, header: Header)

  predicate Consistent(pid: u16, p: Partition, m: Metadata) {
    && m.partitionId == p.metadata.partitionId
    && m.partitionSize == p.metadata.partitionSize
    && (IsDynamic(pid) || m.firstElementLen == p.metadata.firstElementLen)
  }

  function Judge(pid: u16, p: Partition, blob: seq<byte>): Verdict
    requires |blob| == METADATA_SIZE + HeaderLen(pid)
  {
    var m := DeserializeMetadata(blob[..METADATA_SIZE]);
    if BlobCrc(blob) != m.headerCrc then BadCrc
    else if Consistent(pid, p, m) then Good(m, DeserializeHeader(pid, blob[METADATA_SIZE..]))
    else Foreign
  }

  /** A sealed blob is recognised, by any partition record it is consistent with. */
  lemma SealedIsGood(pid: u16, p: Partition, m: Metadata, h: Header)
    requires Storable(m) && Consistent(pid, p, m) && m == Sealed(pid, m, h)
    ensures Judge(pid, p, FirstBlob(pid, m, h)) == Good(m, Kept(pid, h))
  {
    var blob := FirstBlob(pid, m, h);
    assert blob[..METADATA_SIZE] == SerializeMetadata(m);
    assert blob[METADATA_SIZE..] == SerializeHeader(pid, h);
    SealIgnoresSeal(pid, m, h, 0);
    hide SerializeMetadata, DeserializeMetadata, SerializeHeader, DeserializeHeader;
    MetadataRoundTrip(m);
    HeaderRoundTrip(pid, h);
  }

}
