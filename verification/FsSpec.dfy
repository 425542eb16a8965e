/** What every filesystem operation does to storage and to the RAM records, as functions (filesystem_lib.c). */
module FsSpec {
  import opened Bytes
  import opened Words
  import opened Crc16
  import opened Units
  import opened FsTypes

  // ---- reading headers ----

  /** The result of reading a header: the copy in RAM may be refreshed, the copy in storage repaired. */
  datatype HeaderRead = HeaderRead(ret: Ret, part: Partition, header: Header, writes: seq<WriteOp>)

  const NO_HEADER := Header(0, 0, 0)

  function FirstLen(pid: u16): nat { METADATA_SIZE + HeaderLen(pid) }

  /** Reading headers refreshes no more of a RAM record than its metadata, never its identity or size. */
  predicate SameButMetadata(a: Partition, b: Partition) {
    && a == b.(metadata := a.metadata)
    && a.metadata.partitionId == b.metadata.partitionId
    && a.metadata.partitionSize == b.metadata.partitionSize
  }

  /** The metadata and header at the partition start, or failing them the copy in the swap page. */
  function ReadFirst(mem: seq<byte>, pid: u16, p: Partition): (r: HeaderRead)
    ensures AllFit(|mem|, r.writes)
    ensures r.ret == Success ==> p.firstElementAddress + HeaderLen(pid) <= |mem|
    ensures SameButMetadata(r.part, p)
  {
    var n := FirstLen(pid);
    var start := p.firstElementAddress;
    if start + n > |mem| then HeaderRead(Internal, p, NO_HEADER, [])
    else match Judge(pid, p, mem[start..start + n])
      case Good(m, h) => HeaderRead(Success, p.(metadata := m), h, [])
      case Foreign => HeaderRead(NotFound, p, NO_HEADER, [])
      case BadCrc =>
        var swap := SwapAddress(pid);
        if swap + n > |mem| then HeaderRead(Internal, p, NO_HEADER, [])
        else
          var copy := mem[swap..swap + n];
          match Judge(pid, p, copy)
          case Good(m, h) => HeaderRead(Success, p.(metadata := m), h, [WriteOp(start, copy)])
          case _ => HeaderRead(NotFound, p, NO_HEADER, [])
  }

  /** `filesystem_read_element_header`. */
  function ReadHeader(mem: seq<byte>, pid: u16, p: Partition, address: nat): (r: HeaderRead)
    ensures AllFit(|mem|, r.writes)
    ensures r.ret == Success ==> address + HeaderLen(pid) <= |mem|
    ensures SameButMetadata(r.part, p)
  {
    if address == p.firstElementAddress then ReadFirst(mem, pid, p)
    else if address + HeaderLen(pid) > |mem| then HeaderRead(Internal, p, NO_HEADER, [])
    else HeaderRead(Success, p, DeserializeHeader(pid, mem[address..address + HeaderLen(pid)]), [])
  }

  /** The result of stepping to a neighbouring element. */
  datatype StepRead = StepRead(ret: Ret, part: Partition, address: nat, header: Header, writes: seq<WriteOp>)

  /** The length of a neighbour: in a dynamic partition the stored exclusive or yields it. */
  function NeighbourLen(pid: u16, p: Partition, len: u16, xor: u16): u16 {
    if IsDynamic(pid) then Xor16(len, xor) else p.metadata.firstElementLen
  }

  /** `filesystem_get_next_element_header`. */
  function NextHeader(mem: seq<byte>, pid: u16, p: Partition, address: nat, id: u16, len: u16): (r: StepRead)
    ensures AllFit(|mem|, r.writes)
    ensures r.ret == Success ==> r.address + HeaderLen(pid) <= |mem|
    ensures SameButMetadata(r.part, p)
  {
    var start := p.firstElementAddress;
    var next := address + FullHeaderLen(pid, start, address) + len;
    var r := ReadHeader(mem, pid, p, next);
    if r.ret != Success then StepRead(r.ret, r.part, next, NO_HEADER, r.writes)
    else if r.header.recordId == IncrementRecordId(id)
         && next + HeaderLen(pid) + NeighbourLen(pid, r.part, len, r.header.previousXorCurrent)
            <= start + p.metadata.partitionSize
    then StepRead(Success, r.part, next, r.header, r.writes)
    else
      var f := ReadHeader(Apply(mem, r.writes), pid, r.part, start);
      var writes := r.writes + f.writes;
      if f.ret != Success then StepRead(f.ret, f.part, start, NO_HEADER, writes)
      else if f.header.recordId == IncrementRecordId(id) then StepRead(Success, f.part, start, f.header, writes)
      else StepRead(NotFound, f.part, start, NO_HEADER, writes)
  }

  /** The checked read at the end of `filesystem_get_previous_element_header`. */
  function ExpectHeader(mem: seq<byte>, pid: u16, p: Partition, address: nat, id: u16): (r: StepRead)
    ensures AllFit(|mem|, r.writes)
    ensures SameButMetadata(r.part, p)
  {
    var r := ReadHeader(mem, pid, p, address);
    if r.ret != Success then StepRead(r.ret, r.part, address, NO_HEADER, r.writes)
    else if r.header.recordId == id then StepRead(Success, r.part, address, r.header, r.writes)
    else StepRead(NotFound, r.part, address, NO_HEADER, r.writes)
  }

  /** `filesystem_get_previous_element_header`. */
  function PreviousHeader(mem: seq<byte>, pid: u16, p: Partition, address: nat, id: u16, len: u16): (r: StepRead)
    ensures AllFit(|mem|, r.writes)
    ensures SameButMetadata(r.part, p)
  {
    var start := p.firstElementAddress;
    var last := p.metadata.lastElementAddress;
    if address <= start then
      if last <= start then StepRead(NotFound, p, start, NO_HEADER, [])
      else ExpectHeader(mem, pid, p, last, DecrementRecordId(id))
    else
      var r := ReadHeader(mem, pid, p, address);
      if r.ret != Success then StepRead(r.ret, r.part, address, NO_HEADER, r.writes)
      else
        var previousLen := NeighbourLen(pid, r.part, len, r.header.previousXorCurrent);
        var previous := if address <= start + FirstLen(pid) + previousLen then start
                        else address - previousLen - HeaderLen(pid);
        var e := ExpectHeader(Apply(mem, r.writes), pid, r.part, previous, DecrementRecordId(id));
        StepRead(e.ret, e.part, e.address, e.header, r.writes + e.writes)
  }

  // ---- finding the latest element ----

  datatype Latest = Latest(ret: Ret, part: Partition, address: nat, recordId: u16, len: u16, writes: seq<WriteOp>)

  /** The loop of `filesystem_find_latest_element_address`, from one element on. */
  function WalkToLatest(
    mem: seq<byte>, pid: u16, p: Partition, firstLen: u16, address: nat, id: u16, len: u16): (r: Latest)
    requires address <= |mem|
    ensures AllFit(|mem|, r.writes)
    ensures SameButMetadata(r.part, p)
    decreases |mem| - address
  {
    var n := NextHeader(mem, pid, p, address, id, len);
    if n.ret == Success && n.address > address then
      var nextLen := if IsDynamic(pid) then Xor16(len, n.header.previousXorCurrent) else firstLen;
      var r := WalkToLatest(Apply(mem, n.writes), pid, n.part, firstLen, n.address, n.header.recordId, nextLen);
      r.(writes := n.writes + r.writes)
    else
      Latest(if n.ret == Success || n.ret == NotFound then Success else n.ret, n.part, address, id, len, n.writes)
  }

  /** `filesystem_find_latest_element_address`. */
  function FindLatest(mem: seq<byte>, pid: u16, p: Partition): (r: Latest)
    ensures AllFit(|mem|, r.writes)
    ensures SameButMetadata(r.part, p)
  {
    var start := p.firstElementAddress;
    var f := ReadHeader(mem, pid, p, start);
    if f.ret != Success then Latest(f.ret, f.part, start, 0, 0, f.writes)
    else
      var len := p.metadata.firstElementLen;
      var r := WalkToLatest(Apply(mem, f.writes), pid, f.part, len, start, f.header.recordId, len);
      r.(writes := f.writes + r.writes)
  }

  // ---- registering ----

  /** What registration sets in a RAM record before it looks at storage. */
  function FreshRecord(before: Partition, pid: u16, start: nat, size: nat, elementLen: u16): Partition {
    before.(hasFirstElement := false, firstElementAddress := start,
         latestElementAddress := start, latestRecordId := 1, latestElementLen := 0,
         metadata := before.metadata.(partitionId := pid, partitionSize := size, firstElementLen := elementLen,
                                   lastElementAddress := start))
  }

  datatype Scanned = Scanned(ret: Ret, part: Partition, writes: seq<WriteOp>)

  /** The second half of `filesystem_register_partition`: rebuild the RAM record from storage. */
  function Scan(mem: seq<byte>, pid: u16, p: Partition): (r: Scanned)
    ensures AllFit(|mem|, r.writes)
    ensures r.part.firstElementAddress == p.firstElementAddress
    ensures r.part.metadata.partitionId == p.metadata.partitionId
    ensures r.part.metadata.partitionSize == p.metadata.partitionSize
  {
    hide ReadHeader, FindLatest;
    var f := ReadHeader(mem, pid, p, p.firstElementAddress);
    if f.ret == NotFound then Scanned(Success, f.part.(hasFirstElement := false), f.writes)
    else if f.ret != Success then Scanned(Internal, f.part, f.writes)
    else
      var l := FindLatest(Apply(mem, f.writes), pid, f.part);
      if l.ret != Success then Scanned(l.ret, l.part, f.writes + l.writes)
      else
        Scanned(Success,
                l.part.(hasFirstElement := true, latestElementAddress := l.address, latestRecordId := l.recordId,
                        latestElementLen := l.len),
                f.writes + l.writes)
  }

  // ---- the iterator's validity ----

  /** The result of an operation on a partition. */
  datatype Outcome = Outcome(ret: Ret, part: Partition, iter: Iterator, writes: seq<WriteOp>)

  /** `filesystem_iterator_check_validity`. */
  function CheckValidity(mem: seq<byte>, pid: u16, p: Partition, it: Iterator): (r: Outcome)
    ensures AllFit(|mem|, r.writes)
    ensures SameButMetadata(r.part, p)
    ensures r.iter == it || r.iter == it.(valid := false)
  {
    if !it.valid then Outcome(InvalidState, p, it, [])
    else if !p.hasFirstElement then Outcome(InvalidState, p, it.(valid := false), [])
    else
      var r := ReadHeader(mem, pid, p, it.currentAddress);
      if r.ret == NotFound then Outcome(InvalidState, r.part, it.(valid := false), r.writes)
      else if r.ret != Success then Outcome(r.ret, r.part, it, r.writes)
      else if || r.header.recordId != it.currentHeader.recordId
              || (HasCrc(pid) && r.header.elementCrc != it.currentHeader.elementCrc)
              || (IsDynamic(pid) && r.header.previousXorCurrent != it.currentHeader.previousXorCurrent)
      then Outcome(InvalidState, r.part, it.(valid := false), r.writes)
      else Outcome(Success, r.part, it, r.writes)
  }

  /** The three-case overlap test of `filesystem_check_iterator_conflict`, on [a, b) and [c, d). */
  predicate ConflictTest(a: nat, b: nat, c: nat, d: nat) {
    || (a >= c && a < d)
    || (b > c && b <= d)
    || (a <= c && b >= d)
  }

  /** `filesystem_check_iterator_conflict`. */
  function CheckConflict(
    g: Geometry, mem: seq<byte>, pid: u16, p: Partition, it: Iterator, address: nat, len: u16): (r: Outcome)
    requires Regular(g)
    ensures AllFit(|mem|, r.writes)
    ensures SameButMetadata(r.part, p)
  {
    var v := CheckValidity(mem, pid, p, it);
    if v.ret == InvalidState then v.(ret := Success)
    else if v.ret == Internal then v
    else
      var start := p.firstElementAddress;
      var end := address + len + FullHeaderLen(pid, start, address);
      var current := v.iter.currentAddress;
      var currentSize := v.iter.currentLen + FullHeaderLen(pid, start, current);
      var limits := UnitLimits(g, current, currentSize);
      if limits.Invalid? then v.(ret := Internal)
      else if ConflictTest(address, end, limits.start, current + currentSize) then v.(ret := Forbidden)
      else v.(ret := Success)
  }

  // ---- storing ----

  /** One past the last byte of a partition. */
  function PartEnd(p: Partition): nat { p.firstElementAddress + p.metadata.partitionSize }

  /** One past the bytes of a partition's copy in the swap page. */
  function SwapEnd(pid: u16): nat { SwapAddress(pid) + FirstLen(pid) }

  /** A handle that registration gave out: the partition lies in storage, behind the swap page. */
  predicate Registered(mem: seq<byte>, pid: u16, p: Partition) {
    && Index(pid) < MAX_PARTITIONS
    && p.metadata.partitionId == pid
    && SWAP_PAGE_SIZE <= p.firstElementAddress
    && p.firstElementAddress + p.metadata.partitionSize <= |mem| < 0x1_0000_0000
    && FirstLen(pid) <= p.metadata.partitionSize
  }

  /** A static partition stores elements of one length only; 0 stands for that length. */
  function EffectiveLen(pid: u16, p: Partition, len: u16): u16 {
    if !IsDynamic(pid) && len == 0 then p.metadata.firstElementLen else len
  }

  datatype Place = Place(address: nat, recordId: u16, xor: u16)

  /** Where the next element goes: behind the latest one, or at the start if it would not fit there. */
  function Placement(pid: u16, p: Partition, len: u16): Place {
    var start := p.firstElementAddress;
    if !p.hasFirstElement then Place(start, p.latestRecordId, 0)
    else
      var next := p.latestElementAddress + FullHeaderLen(pid, start, p.latestElementAddress) + p.latestElementLen;
      Place(if next + HeaderLen(pid) + len <= start + p.metadata.partitionSize then next else start,
            IncrementRecordId(p.latestRecordId), Xor16(p.latestElementLen, len))
  }

  /** The end of an element's bytes. */
  function EndOf(pid: u16, start: nat, address: nat, len: u16): nat {
    address + FullHeaderLen(pid, start, address) + len
  }

  /** A store of no bytes does not reach the device. */
  function StoreOp(address: nat, data: seq<byte>): seq<WriteOp> {
    if data == [] then [] else [WriteOp(address, data)]
  }

  /** `filesystem_backup_first_element_header`: rewrite the swap page units around the slot if the slot differs. */
  function Backup(g: Geometry, mem: seq<byte>, swap: nat, blob: seq<byte>): (ws: seq<WriteOp>)
    requires Regular(g) && TotalSize(g) == |mem|
    requires swap + |blob| <= |mem| && |blob| > 0
    ensures AllFit(|mem|, ws)
  {
    if mem[swap..swap + |blob|] == blob then []
    else
      var limits := UnitLimits(g, swap, |blob|);
      UnitsHold(g, swap, |blob|);
      [WriteOp(limits.start, Write(mem, swap, blob)[limits.start..limits.end + 1])]
  }

  lemma UnitsHold(g: Geometry, address: nat, n: nat)
    requires Regular(g) && n > 0 && address + n <= TotalSize(g)
    ensures var limits := UnitLimits(g, address, n);
      limits.Limits? && limits.start <= address && address + n <= limits.end + 1 <= TotalSize(g)
  {
    LimitsAreSmallestCover(g, address, n, 0, 0);
  }

  /** The metadata a store at the partition start writes. */
  function NewMetadata(pid: u16, p: Partition, header: Header, len: u16): Metadata {
    var start := p.firstElementAddress;
    var last := if start + FirstLen(pid) + len >= p.latestElementAddress then start else p.latestElementAddress;
    Sealed(pid, Metadata(0, pid, p.metadata.partitionSize, len, last), header)
  }

  /** The stale header behind the new element, if it would look like the element after it. */
  function ClearNext(pid: u16, n: StepRead, address: nat): seq<WriteOp> {
    if n.ret == Success && n.address > address then [WriteOp(n.address, Repeat(0xFF, HeaderLen(pid)))] else []
  }

  /** The checks in front of a store: a refusal, or everything the writes need. */
  datatype Prepared =
    | Refused(outcome: Outcome)
    | Ready(part: Partition, iter: Iterator, place: Place, clear: seq<WriteOp>, done: seq<WriteOp>)

  /** The first half of `filesystem_store_element`, for an element of `n` bytes. */
  function PrepareStore(g: Geometry, mem: seq<byte>, pid: u16, p: Partition, it: Iterator, n: u16): (r: Prepared)
    requires Regular(g) && TotalSize(g) == |mem| && Registered(mem, pid, p)
    ensures r.Ready? ==> AllFit(|mem|, r.done) && AllFit(|mem|, r.clear) && Registered(mem, pid, r.part)
                         && r.part.firstElementAddress == p.firstElementAddress
                         && EndOf(pid, p.firstElementAddress, r.place.address, n) <= |mem|
    ensures r.Refused? ==> r.outcome.ret != Success && AllFit(|mem|, r.outcome.writes)
  {
    hide NextHeader, CheckConflict, HeaderLen, Regular, TotalSize, Apply, Registered, FullHeaderLen, Placement;
    var place := Placement(pid, p, n);
    if EndOf(pid, p.firstElementAddress, place.address, n) > PartEnd(p) then Refused(Outcome(NoMem, p, it, []))
    else
      var c := CheckConflict(g, mem, pid, p, it, place.address, n);
      if c.ret != Success then Refused(c.(ret := Internal))
      else
        var next := NextHeader(Apply(mem, c.writes), pid, c.part, place.address, place.recordId, n);
        var done := c.writes + next.writes;
        if next.ret != Success && next.ret != NotFound then Refused(Outcome(next.ret, next.part, c.iter, done))
        else
          RegisteredStays(mem, pid, p, c.part, next.part);
          Ready(next.part, c.iter, place, ClearNext(pid, next, place.address), done)
  }

  lemma RegisteredStays(mem: seq<byte>, pid: u16, p: Partition, q: Partition, r: Partition)
    requires Registered(mem, pid, p) && SameButMetadata(q, p) && SameButMetadata(r, q)
    ensures Registered(mem, pid, r) && r.firstElementAddress == p.firstElementAddress && PartEnd(p) <= |mem|
  {
  }

  /** `filesystem_store_element`. */
  function StoreElement(
    g: Geometry, mem: seq<byte>, pid: u16, p: Partition, it: Iterator, data: seq<byte>, len: u16): (r: Outcome)
    requires Regular(g) && TotalSize(g) == |mem| && Registered(mem, pid, p)
    requires EffectiveLen(pid, p, len) <= |data|
    ensures AllFit(|mem|, r.writes)
  {
    hide PrepareStore, CommitElement, Registered, Regular, TotalSize, Apply;
    if !IsDynamic(pid) && len != 0 && len != p.metadata.firstElementLen then Outcome(InvalidParam, p, it, [])
    else
      var n := EffectiveLen(pid, p, len);
      match PrepareStore(g, mem, pid, p, it, n)
      case Refused(outcome) => outcome
      case Ready(part, iter, place, clear, done) =>
        CommitElement(g, Apply(mem, done), pid, part, iter, place, data[..n], done, clear)
  }

  function NewHeader(place: Place, data: seq<byte>): Header { Header(place.recordId, place.xor, Checksum(data)) }

  /** The RAM record while the element is written: a store at the start renews metadata and first header. */
  function WithHeader(pid: u16, p: Partition, place: Place, data: seq<byte>): Partition
    requires |data| < 0x1_0000
  {
    var header := NewHeader(place, data);
    if place.address != p.firstElementAddress then p
    else p.(metadata := NewMetadata(pid, p, header, |data|), firstElementHeader := header)
  }

  function RecordBlob(pid: u16, p: Partition): (s: seq<byte>)
    ensures |s| == FirstLen(pid)
  {
    FirstBlob(pid, p.metadata, p.firstElementHeader)
  }

  /** The bytes written in front of the payload. */
  function HeadBytes(pid: u16, p: Partition, place: Place, data: seq<byte>): (s: seq<byte>)
    requires |data| < 0x1_0000
    ensures |s| == FullHeaderLen(pid, p.firstElementAddress, place.address)
  {
    if place.address == p.firstElementAddress then RecordBlob(pid, WithHeader(pid, p, place, data))
    else SerializeHeader(pid, NewHeader(place, data))
  }

  /** The first header goes to the swap page before anything in its unit is written. */
  function CommitBackup(g: Geometry, mem: seq<byte>, pid: u16, p: Partition, place: Place, data: seq<byte>): (ws: seq<WriteOp>)
    requires Regular(g) && TotalSize(g) == |mem| && Registered(mem, pid, p) && |data| < 0x1_0000
    requires place.address < |mem|
    ensures AllFit(|mem|, ws)
  {
    if UnitStart(g, place.address) == p.firstElementAddress
    then Backup(g, mem, SwapAddress(pid), RecordBlob(pid, WithHeader(pid, p, place, data)))
    else []
  }

  /** The writes of a store, in their order. */
  function StoreWrites(clear: seq<WriteOp>, backup: seq<WriteOp>, address: nat, bytes: seq<byte>, data: seq<byte>): seq<WriteOp> {
    clear + backup + [WriteOp(address, bytes)] + StoreOp(address + |bytes|, data)
  }

  /** The second half of `filesystem_store_element`: the writes and the new RAM records. */
  function CommitElement(
    g: Geometry, mem: seq<byte>, pid: u16, p: Partition, it: Iterator, place: Place, data: seq<byte>,
    done: seq<WriteOp>, clear: seq<WriteOp>): (r: Outcome)
    requires Regular(g) && TotalSize(g) == |mem| && Registered(mem, pid, p) && |data| < 0x1_0000
    requires AllFit(|mem|, clear) && AllFit(|mem|, done)
    requires EndOf(pid, p.firstElementAddress, place.address, |data|) <= |mem|
    ensures r.ret == Success && r.iter == it && AllFit(|mem|, r.writes)
  {
    hide CommitBackup, HeadBytes, FullHeaderLen, Registered, Regular, TotalSize, Apply, WithHeader;
    var backup := CommitBackup(g, Apply(mem, clear), pid, p, place, data);
    Outcome(
      Success,
      WithHeader(pid, p, place, data).(
        latestElementAddress := place.address, latestRecordId := place.recordId, latestElementLen := |data|,
        hasFirstElement := true),
      it,
      done + StoreWrites(clear, backup, place.address, HeadBytes(pid, p, place, data), data))
  }

  // ---- clearing ----

  function ErasedBlob(pid: u16): (s: seq<byte>)
    ensures |s| == FirstLen(pid)
  {
    Repeat(0xFF, FirstLen(pid))
  }

  lemma RoomForCopies(mem: seq<byte>, pid: u16, p: Partition)
    requires Registered(mem, pid, p)
    ensures SwapAddress(pid) + FirstLen(pid) <= p.firstElementAddress && p.firstElementAddress + FirstLen(pid) <= |mem|
  {
  }

  /** `filesystem_clear_partition`. */
  function ClearPartition(g: Geometry, mem: seq<byte>, pid: u16, p: Partition, it: Iterator): (r: Outcome)
    requires Regular(g) && TotalSize(g) == |mem| && Registered(mem, pid, p)
    ensures AllFit(|mem|, r.writes)
  {
    hide ReadHeader, Backup, Apply, Registered, HeaderLen, SwapAddress, Regular, TotalSize, SameButMetadata;
    RoomForCopies(mem, pid, p);
    var start := p.firstElementAddress;
    var f := ReadHeader(mem, pid, p, start);
    if f.ret != Success && f.ret != NotFound then Outcome(f.ret, f.part, it, f.writes)
    else
      var backup := Backup(g, Apply(mem, f.writes), SwapAddress(pid), ErasedBlob(pid));
      Outcome(
        Success,
        f.part.(hasFirstElement := false, latestElementAddress := start, latestElementLen := 0,
                latestRecordId := if f.ret == Success then IncrementRecordId(f.header.recordId) else 1),
        it,
        f.writes + backup + [WriteOp(start, ErasedBlob(pid))])
  }

  // ---- the iterator ----

  /** `filesystem_iterator_init`. */
  function IteratorInit(mem: seq<byte>, pid: u16, p: Partition, it: Iterator): (r: Outcome)
    ensures AllFit(|mem|, r.writes) && SameButMetadata(r.part, p)
  {
    hide ReadHeader, CheckValidity, NextHeader, PreviousHeader, Apply, HeaderLen;
    if !p.hasFirstElement then Outcome(InvalidState, p, it.(valid := false), [])
    else
      var r := ReadHeader(mem, pid, p, p.latestElementAddress);
      var it1 := it.(valid := false, currentAddress := p.latestElementAddress, currentLen := p.latestElementLen);
      if r.ret == NotFound then Outcome(InvalidState, r.part, it1, r.writes)
      else if r.ret != Success then Outcome(r.ret, r.part, it1, r.writes)
      else Outcome(Success, r.part, it1.(currentHeader := r.header, valid := true), r.writes)
  }

  /** `filesystem_iterator_next`. */
  function IteratorNext(mem: seq<byte>, pid: u16, p: Partition, it: Iterator): (r: Outcome)
    ensures AllFit(|mem|, r.writes) && SameButMetadata(r.part, p)
  {
    hide ReadHeader, CheckValidity, NextHeader, PreviousHeader, Apply, HeaderLen;
    var v := CheckValidity(mem, pid, p, it);
    if v.ret != Success then v
    else
      var n := NextHeader(Apply(mem, v.writes), pid, v.part, it.currentAddress, it.currentHeader.recordId, it.currentLen);
      var writes := v.writes + n.writes;
      if n.ret != Success then Outcome(n.ret, n.part, v.iter, writes)
      else
        var len := NeighbourLen(pid, n.part, it.currentLen, n.header.previousXorCurrent);
        Outcome(Success, n.part, Iterator(n.address, len, n.header, true), writes)
  }

  /** `filesystem_iterator_previous`. */
  function IteratorPrevious(mem: seq<byte>, pid: u16, p: Partition, it: Iterator): (r: Outcome)
    ensures AllFit(|mem|, r.writes) && SameButMetadata(r.part, p)
  {
    hide ReadHeader, CheckValidity, NextHeader, PreviousHeader, Apply, HeaderLen;
    var v := CheckValidity(mem, pid, p, it);
    if v.ret != Success then v
    else
      var n := PreviousHeader(
        Apply(mem, v.writes), pid, v.part, it.currentAddress, it.currentHeader.recordId, it.currentLen);
      var writes := v.writes + n.writes;
      if n.ret != Success then Outcome(n.ret, n.part, v.iter, writes)
      else
        var len := NeighbourLen(pid, n.part, it.currentLen, it.currentHeader.previousXorCurrent);
        if n.address + HeaderLen(pid) + len > p.firstElementAddress + n.part.metadata.partitionSize
        then Outcome(NotFound, n.part, v.iter, writes)
        else Outcome(Success, n.part, Iterator(n.address, len, n.header, true), writes)
  }

  /** `filesystem_iterator_read_element`: the result code, the payload and the record identifier. */
  datatype ElementRead = ElementRead(outcome: Outcome, data: seq<byte>, recordId: u16)

  function IteratorRead(mem: seq<byte>, pid: u16, p: Partition, it: Iterator): (r: ElementRead)
    ensures AllFit(|mem|, r.outcome.writes) && SameButMetadata(r.outcome.part, p)
  {
    hide CheckValidity, Apply;
    var v := CheckValidity(mem, pid, p, it);
    if v.ret != Success then ElementRead(v, [], 0)
    else
      var from := it.currentAddress + FullHeaderLen(pid, p.firstElementAddress, it.currentAddress);
      if from + it.currentLen > |mem| then ElementRead(v.(ret := Internal), [], 0)
      else
        var data := Apply(mem, v.writes)[from..from + it.currentLen];
        if HasCrc(pid) && Checksum(data) != it.currentHeader.elementCrc
        then ElementRead(v.(ret := InvalidData), data, 0)
        else ElementRead(v, data, it.currentHeader.recordId)
  }
}
