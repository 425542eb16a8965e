/** The filesystem as a component with state: storage, the partition and iterator records, the free address. */
module Filesystem {
  import opened Bytes
  import opened Words
  import opened Crc16
  import opened Units
  import opened FsTypes
  import opened FsSpec
  import opened FsSystem
  import FsPerform
  import FsRuns

  class Store {
    const geometry: Geometry
    const storage: array<byte>
    const partitions: array<Partition>
    const iterators: array<Iterator>
    var numberOfPartitions: nat
    var nextFreeAddress: nat
    /** Every write to storage so far, in order. */
    ghost var trace: seq<WriteOp>

    ghost predicate Valid()
      reads this, storage, partitions, iterators
    {
      && Regular(geometry) && TotalSize(geometry) == storage.Length < 0x1_0000_0000
      && partitions.Length == iterators.Length == MAX_PARTITIONS
    }

    ghost function State(): System
      reads this, storage, partitions, iterators
    {
      System(storage[..], partitions[..], iterators[..], numberOfPartitions, nextFreeAddress)
    }

    /** An operation on one partition: these records, these writes, and nothing else. */
    twostate predicate Did(pid: u16, part: Partition, iter: Iterator, writes: seq<WriteOp>)
      requires Index(pid) < MAX_PARTITIONS
      reads this, storage, partitions, iterators
    {
      && old(Valid()) && Valid() && AllFit(storage.Length, writes)
      && storage[..] == Apply(old(storage[..]), writes)
      && partitions[..] == old(partitions[..])[Index(pid) := part]
      && iterators[..] == old(iterators[..])[Index(pid) := iter]
      && trace == old(trace) + writes
      && numberOfPartitions == old(numberOfPartitions) && nextFreeAddress == old(nextFreeAddress)
    }

    constructor (g: Geometry)
      requires Regular(g) && TotalSize(g) < 0x1_0000_0000
      ensures Valid() && geometry == g && trace == [] && numberOfPartitions == 0
      ensures fresh(storage) && fresh(partitions) && fresh(iterators)
    {
      var none := Partition(Metadata(0, 0, 0, 0, 0), 0, false, NO_HEADER, 0, 0, 0);
      geometry := g;
      storage := new byte[TotalSize(g)](_ => 0xFF);
      partitions := new Partition[MAX_PARTITIONS](_ => none);
      iterators := new Iterator[MAX_PARTITIONS](_ => Iterator(0, 0, NO_HEADER, false));
      numberOfPartitions := 0;
      nextFreeAddress := 0;
      trace := [];
    }

    /** `storage_store` on a whole range. */
    method StoreBytes(address: nat, data: seq<byte>)
      requires Valid() && address + |data| <= storage.Length
      modifies storage, `trace
      ensures Valid() && storage[..] == Write(old(storage[..]), address, data)
      ensures trace == old(trace) + [WriteOp(address, data)]
    {
      hide Write, Regular, TotalSize;
      ghost var mem := storage[..];
      var i := 0;
      assert data[..0] == [];
      while i < |data|
        invariant 0 <= i <= |data|
        invariant storage[..] == Write(mem, address, data[..i])
        invariant trace == old(trace)
      {
        ghost var before := storage[..];
        storage[address + i] := data[i];
        assert storage[..] == before[address + i := data[i]];
        i := i + 1;
      }
      assert data[..|data|] == data;
      trace := trace + [WriteOp(address, data)];
    }

    /** The copy of metadata and first header that stands at `address`, judged by its checksum and the RAM record. */
    method ReadCopy(pid: u16, address: nat) returns (ok: bool, tmp: seq<byte>, verdict: Verdict)
      requires Valid() && Index(pid) < MAX_PARTITIONS
      ensures ok <==> address + FirstLen(pid) <= storage.Length
      ensures ok ==> |tmp| == FirstLen(pid) && tmp == storage[address..address + FirstLen(pid)]
      ensures ok ==> verdict == Judge(pid, partitions[Index(pid)], tmp)
    {
      var n := HeaderLen(pid);
      ok, tmp, verdict := false, [], BadCrc;
      if address + METADATA_SIZE + n > storage.Length {
        return;
      }
      tmp := storage[address..address + METADATA_SIZE] + storage[address + METADATA_SIZE..address + METADATA_SIZE + n];
      assert tmp == storage[address..address + FirstLen(pid)];
      ok := true;
      var metadata := DeserializeMetadata(tmp[..METADATA_SIZE]);
      var header := DeserializeHeader(pid, tmp[METADATA_SIZE..]);
      var crc := ComputeAll(tmp[2..]);
      hide DeserializeMetadata, DeserializeHeader, BlobCrc, HeaderLen;
      if crc == metadata.headerCrc {
        if Consistent(pid, partitions[Index(pid)], metadata) {
          verdict := Good(metadata, header);
        } else {
          verdict := Foreign;
        }
      }
    }

    /** `filesystem_read_element_header`, for the first element. */
    method ReadFirstHeader(pid: u16) returns (ret: Ret, header: Header)
      requires Valid() && Index(pid) < MAX_PARTITIONS
      modifies storage, partitions, `trace
      ensures var r := ReadFirst(old(storage[..]), pid, old(partitions[Index(pid)]));
        ret == r.ret && header == r.header && Did(pid, r.part, old(iterators[Index(pid)]), r.writes)
    {
      hide Judge, HeaderLen, Apply, TotalSize, Regular;
      var index := Index(pid);
      var p := partitions[index];
      NoWrites(storage[..]);
      var ok, tmp, verdict := ReadCopy(pid, p.firstElementAddress);
      if !ok {
        return Internal, NO_HEADER;
      }
      if verdict.Good? {
        partitions[index] := p.(metadata := verdict.metadata);
        return Success, verdict.header;
      }
      if verdict.Foreign? {
        return NotFound, NO_HEADER;
      }
      // The header in storage is not correct: look in the swap page.
      ok, tmp, verdict := ReadCopy(pid, SwapAddress(pid));
      if !ok {
        return Internal, NO_HEADER;
      }
      if verdict.Good? {
        OneWrite(storage[..], WriteOp(p.firstElementAddress, tmp));
        StoreBytes(p.firstElementAddress, tmp);
        partitions[index] := p.(metadata := verdict.metadata);
        return Success, verdict.header;
      }
      return NotFound, NO_HEADER;
    }

    /** `filesystem_read_element_header`. */
    method ReadElementHeader(pid: u16, address: nat) returns (ret: Ret, header: Header)
      requires Valid() && Index(pid) < MAX_PARTITIONS
      modifies storage, partitions, `trace
      ensures var r := ReadHeader(old(storage[..]), pid, old(partitions[Index(pid)]), address);
        ret == r.ret && header == r.header && Did(pid, r.part, old(iterators[Index(pid)]), r.writes)
    {
      hide ReadFirst, DeserializeHeader, HeaderLen, Apply, TotalSize, Regular;
      NoWrites(storage[..]);
      var p := partitions[Index(pid)];
      if address == p.firstElementAddress {
        ret, header := ReadFirstHeader(pid);
      } else {
        var n := HeaderLen(pid);
        if address + n > storage.Length {
          return Internal, NO_HEADER;
        }
        return Success, DeserializeHeader(pid, storage[address..address + n]);
      }
    }

    /** `filesystem_get_next_element_header`. */
    method GetNextElementHeader(pid: u16, address: nat, id: u16, len: u16) returns (ret: Ret, next: nat, header: Header)
      requires Valid() && Index(pid) < MAX_PARTITIONS
      modifies storage, partitions, `trace
      ensures var r := NextHeader(old(storage[..]), pid, old(partitions[Index(pid)]), address, id, len);
        ret == r.ret && next == r.address && header == r.header && Did(pid, r.part, old(iterators[Index(pid)]), r.writes)
    {
      hide ReadHeader, HeaderLen, FullHeaderLen, Apply, TotalSize, Regular, NeighbourLen, AllFit, IncrementRecordId;
      var index := Index(pid);
      var start, size := partitions[index].firstElementAddress, partitions[index].metadata.partitionSize;
      next := address + FullHeaderLen(pid, start, address) + len;
      ghost var mem, part := storage[..], partitions[index];
      ghost var first := ReadHeader(mem, pid, part, next);
      ret, header := ReadElementHeader(pid, next);
      if ret != Success {
        return ret, next, NO_HEADER;
      }
      if header.recordId == IncrementRecordId(id) {
        var nextLen := NeighbourLen(pid, partitions[index], len, header.previousXorCurrent);
        if next + HeaderLen(pid) + nextLen <= start + size {
          return;
        }
      }
      // Otherwise the first element may be the next one.
      next := start;
      ghost var second := ReadHeader(storage[..], pid, partitions[index], next);
      ret, header := ReadElementHeader(pid, next);
      Twice(mem, first.writes, second.writes);
      if ret != Success {
        return ret, next, NO_HEADER;
      }
      if header.recordId == IncrementRecordId(id) {
        return;
      }
      return NotFound, next, NO_HEADER;
    }

    /** The checked read that ends `filesystem_get_previous_element_header`. */
    method ReadExpected(pid: u16, address: nat, id: u16) returns (ret: Ret, header: Header)
      requires Valid() && Index(pid) < MAX_PARTITIONS
      modifies storage, partitions, `trace
      ensures var r := ExpectHeader(old(storage[..]), pid, old(partitions[Index(pid)]), address, id);
        ret == r.ret && header == r.header && Did(pid, r.part, old(iterators[Index(pid)]), r.writes)
    {
      hide ReadHeader, Apply, TotalSize, Regular, AllFit;
      ret, header := ReadElementHeader(pid, address);
      if ret != Success {
        return ret, NO_HEADER;
      }
      if header.recordId == id {
        return;
      }
      return NotFound, NO_HEADER;
    }

    /** `filesystem_get_previous_element_header`. */
    method GetPreviousElementHeader(pid: u16, address: nat, id: u16, len: u16) returns (ret: Ret, previous: nat, header: Header)
      requires Valid() && Index(pid) < MAX_PARTITIONS
      modifies storage, partitions, `trace
      ensures var r := PreviousHeader(old(storage[..]), pid, old(partitions[Index(pid)]), address, id, len);
        ret == r.ret && previous == r.address && header == r.header && Did(pid, r.part, old(iterators[Index(pid)]), r.writes)
    {
      hide ReadHeader, ExpectHeader, HeaderLen, Apply, TotalSize, Regular, NeighbourLen, AllFit, DecrementRecordId;
      var index := Index(pid);
      var start, last := partitions[index].firstElementAddress, partitions[index].metadata.lastElementAddress;
      ghost var mem, part := storage[..], partitions[index];
      NoWrites(mem);
      if address <= start {
        if last <= start {
          return NotFound, start, NO_HEADER;
        }
        previous := last;
        ret, header := ReadExpected(pid, previous, DecrementRecordId(id));
        ExpectedAt(mem, pid, part, last, DecrementRecordId(id));
        return;
      }
      ghost var current := ReadHeader(mem, pid, part, address);
      ret, header := ReadElementHeader(pid, address);
      if ret != Success {
        return ret, address, NO_HEADER;
      }
      var previousLen := NeighbourLen(pid, partitions[index], len, header.previousXorCurrent);
      if address <= start + (METADATA_SIZE + HeaderLen(pid)) + previousLen {
        previous := start;
      } else {
        previous := address - previousLen - HeaderLen(pid);
      }
      ghost var expected := ExpectHeader(storage[..], pid, partitions[index], previous, DecrementRecordId(id));
      ExpectedAt(storage[..], pid, partitions[index], previous, DecrementRecordId(id));
      ret, header := ReadExpected(pid, previous, DecrementRecordId(id));
      Twice(mem, current.writes, expected.writes);
    }

    /** `filesystem_find_latest_element_address`. */
    method FindLatestElement(pid: u16) returns (ret: Ret, address: nat, id: u16, len: u16)
      requires Valid() && Index(pid) < MAX_PARTITIONS
      modifies storage, partitions, `trace
      ensures var r := FindLatest(old(storage[..]), pid, old(partitions[Index(pid)]));
        && ret == r.ret && address == r.address && id == r.recordId && len == r.len
        && Did(pid, r.part, old(iterators[Index(pid)]), r.writes)
    {
      hide ReadHeader, NextHeader, HeaderLen, Apply, TotalSize, Regular, AllFit, Xor16;
      var index := Index(pid);
      var start, firstLen := partitions[index].firstElementAddress, partitions[index].metadata.firstElementLen;
      ghost var mem, part := storage[..], partitions[index];
      ghost var first := ReadHeader(mem, pid, part, start);
      address, id, len := start, 0, 0;
      var header;
      ret, header := ReadElementHeader(pid, start);
      if ret != Success {
        return;
      }
      id, len := header.recordId, firstLen;
      // The state before the last look ahead, and all writes up to it.
      ghost var before, record, done := storage[..], partitions[index], first.writes;
      ghost var whole := WalkToLatest(before, pid, record, firstLen, address, id, len);
      ghost var n := NextHeader(before, pid, record, address, id, len);
      assert done + whole.writes == FindLatest(mem, pid, part).writes;
      hide WalkToLatest;
      var next;
      ret, next, header := GetNextElementHeader(pid, address, id, len);
      Twice(mem, done, n.writes);
      while ret == Success
        invariant Valid() && address <= storage.Length && |before| == storage.Length
        invariant n == NextHeader(before, pid, record, address, id, len)
        invariant ret == n.ret && next == n.address && header == n.header
        invariant WalkToLatest(before, pid, record, firstLen, address, id, len)
               == whole.(writes := WalkToLatest(before, pid, record, firstLen, address, id, len).writes)
        invariant done + WalkToLatest(before, pid, record, firstLen, address, id, len).writes == first.writes + whole.writes
        invariant AllFit(storage.Length, done) && before == Apply(mem, done)
        invariant AllFit(storage.Length, done + n.writes) && storage[..] == Apply(mem, done + n.writes)
        invariant AllFit(|before|, n.writes) && storage[..] == Apply(before, n.writes)
        invariant partitions[..] == old(partitions[..])[index := n.part]
        invariant trace == old(trace) + (done + n.writes)
        decreases storage.Length - address
      {
        if next <= address {
          break;
        }
        LookFurther(before, pid, record, firstLen, address, id, len, done);
        len := if IsDynamic(pid) then Xor16(len, header.previousXorCurrent) else firstLen;
        address := next;
        id := header.recordId;
        done := done + n.writes;
        before, record := storage[..], n.part;
        n := NextHeader(before, pid, record, address, id, len);
        ret, next, header := GetNextElementHeader(pid, address, id, len);
        Twice(mem, done, n.writes);
      }
      StopsHere(before, pid, record, firstLen, address, id, len);
      if ret == NotFound {
        ret := Success;
      }
    }

    /** `filesystem_iterator_check_validity`. */
    method CheckIterator(pid: u16) returns (ret: Ret)
      requires Valid() && Index(pid) < MAX_PARTITIONS
      modifies storage, partitions, iterators, `trace
      ensures var r := CheckValidity(old(storage[..]), pid, old(partitions[Index(pid)]), old(iterators[Index(pid)]));
        ret == r.ret && Did(pid, r.part, r.iter, r.writes)
    {
      hide ReadHeader, Apply, TotalSize, Regular, AllFit;
      var index := Index(pid);
      NoWrites(storage[..]);
      var it := iterators[index];
      if !it.valid {
        return InvalidState;
      }
      if !partitions[index].hasFirstElement {
        iterators[index] := it.(valid := false);
        return InvalidState;
      }
      var header;
      ret, header := ReadElementHeader(pid, it.currentAddress);
      if ret == NotFound {
        iterators[index] := it.(valid := false);
        return InvalidState;
      }
      if ret != Success {
        return;
      }
      if || header.recordId != it.currentHeader.recordId
         || (HasCrc(pid) && header.elementCrc != it.currentHeader.elementCrc)
         || (IsDynamic(pid) && header.previousXorCurrent != it.currentHeader.previousXorCurrent)
      {
        iterators[index] := it.(valid := false);
        return InvalidState;
      }
    }

    /** `filesystem_check_iterator_conflict`. */
    method CheckIteratorConflict(pid: u16, address: nat, len: u16) returns (ret: Ret)
      requires Valid() && Index(pid) < MAX_PARTITIONS
      modifies storage, partitions, iterators, `trace
      ensures var r := CheckConflict(geometry, old(storage[..]), pid, old(partitions[Index(pid)]),
                                     old(iterators[Index(pid)]), address, len);
        ret == r.ret && Did(pid, r.part, r.iter, r.writes)
    {
      hide CheckValidity, Apply, TotalSize, Regular, AllFit, UnitLimits, FullHeaderLen;
      var index := Index(pid);
      ret := CheckIterator(pid);
      if ret == InvalidState {
        return Success;
      } else if ret == Internal {
        return;
      }
      var start := partitions[index].firstElementAddress;
      var elementEnd := address + len + FullHeaderLen(pid, start, address);
      var current := iterators[index].currentAddress;
      var currentSize := iterators[index].currentLen + FullHeaderLen(pid, start, current);
      var iteratorEnd := current + currentSize;
      var ok, iteratorStart, dummy := GetUnitAddressLimits(geometry, current, currentSize);
      if !ok {
        return Internal;
      }
      if address >= iteratorStart && address < iteratorEnd {
        return Forbidden;
      } else if elementEnd > iteratorStart && elementEnd <= iteratorEnd {
        return Forbidden;
      } else if address <= iteratorStart && elementEnd >= iteratorEnd {
        return Forbidden;
      } else {
        return Success;
      }
    }

    /** `filesystem_backup_first_element_header`. */
    method BackupFirstHeader(swap: nat, blob: seq<byte>)
      requires Valid() && swap + |blob| <= storage.Length && |blob| > 0
      modifies storage, `trace
      ensures var ws := Backup(geometry, old(storage[..]), swap, blob);
        && Valid() && storage[..] == Apply(old(storage[..]), ws) && trace == old(trace) + ws
    {
      hide Apply, TotalSize, Regular, UnitLimits, Write;
      NoWrites(storage[..]);
      var tmp := storage[swap..swap + |blob|];
      if tmp != blob {
        UnitsHold(geometry, swap, |blob|);
        var ok, start, last := GetUnitAddressLimits(geometry, swap, |blob|);
        var end := last + 1;
        var unit := storage[start..end];
        var entry := swap - start;
        var replaced := unit[..entry] + blob + unit[entry + |blob|..];
        ReplacedEntry(storage[..], swap, blob, start, end);
        OneWrite(storage[..], WriteOp(start, replaced));
        StoreBytes(start, replaced);
      }
    }

    /** The first half of `filesystem_store_element`: the place of the new element, and what may be in its way. */
    method PrepareElement(pid: u16, n: u16) returns (ready: bool, ret: Ret, place: Place, next: nat, clear: bool)
      requires Valid() && Index(pid) < MAX_PARTITIONS && Registered(storage[..], pid, partitions[Index(pid)])
      modifies storage, partitions, iterators, `trace
      ensures ready && clear ==> next + HeaderLen(pid) <= storage.Length
      ensures match PrepareStore(geometry, old(storage[..]), pid, old(partitions[Index(pid)]), old(iterators[Index(pid)]), n)
        case Refused(o) => !ready && ret == o.ret && Did(pid, o.part, o.iter, o.writes)
        case Ready(part, iter, pl, cl, done) =>
          && ready && place == pl && Did(pid, part, iter, done)
          && cl == if clear then [WriteOp(next, Repeat(0xFF, HeaderLen(pid)))] else []
    {
      hide CheckConflict, NextHeader, Apply, TotalSize, Regular, Registered, HeaderLen, AllFit, Placement, SameButMetadata;
      var index := Index(pid);
      ghost var mem, part, iter := storage[..], partitions[index], iterators[index];
      NoWrites(mem);
      ready, clear, next := false, false, 0;
      place := Placement(pid, partitions[index], n);
      var start, size := partitions[index].firstElementAddress, partitions[index].metadata.partitionSize;
      if EndOf(pid, start, place.address, n) > start + size {
        return false, NoMem, place, 0, false;
      }
      ghost var c := CheckConflict(geometry, mem, pid, part, iter, place.address, n);
      ret := CheckIteratorConflict(pid, place.address, n);
      if ret != Success {
        return false, Internal, place, 0, false;
      }
      ghost var look := NextHeader(storage[..], pid, partitions[index], place.address, place.recordId, n);
      var header;
      ret, next, header := GetNextElementHeader(pid, place.address, place.recordId, n);
      Twice(mem, c.writes, look.writes);
      if ret == Success {
        clear := next > place.address;
      } else if ret != NotFound {
        return false, ret, place, next, false;
      }
      ready := true;
    }

    /** Erase the stale header behind the new element, if there is one (`storage_clear`). */
    method EraseHeader(pid: u16, next: nat, clear: bool)
      requires Valid() && (clear ==> next + HeaderLen(pid) <= storage.Length)
      modifies storage, `trace
      ensures var ws := if clear then [WriteOp(next, Repeat(0xFF, HeaderLen(pid)))] else [];
        && Valid() && AllFit(storage.Length, ws) && storage[..] == Apply(old(storage[..]), ws) && trace == old(trace) + ws
    {
      hide Apply, TotalSize, Regular, HeaderLen;
      NoWrites(storage[..]);
      if clear {
        OneWrite(storage[..], WriteOp(next, Repeat(0xFF, HeaderLen(pid))));
        StoreBytes(next, Repeat(0xFF, HeaderLen(pid)));
      }
    }

    /** The new metadata and first header, kept in RAM before they are written. */
    method RenewFirstHeader(pid: u16, place: Place, header: Header, n: u16)
      requires Valid() && Index(pid) < MAX_PARTITIONS
      modifies partitions
      ensures Valid()
      ensures var p := old(partitions[Index(pid)]);
        partitions[..] == old(partitions[..])[
          Index(pid) := if place.address == p.firstElementAddress
                        then p.(metadata := NewMetadata(pid, p, header, n), firstElementHeader := header) else p]
    {
      var index := Index(pid);
      var p := partitions[index];
      if place.address == p.firstElementAddress {
        var metadata := Metadata(0, pid, p.metadata.partitionSize, n, 0);
        if place.address + METADATA_SIZE + HeaderLen(pid) + n >= p.latestElementAddress {
          metadata := metadata.(lastElementAddress := place.address);
        } else {
          metadata := metadata.(lastElementAddress := p.latestElementAddress);
        }
        var tmp := FirstBlob(pid, metadata, header);
        var crc := ComputeAll(tmp[2..]);
        metadata := metadata.(headerCrc := crc);
        hide Checksum, FirstBlob;
        partitions[index] := p.(metadata := metadata, firstElementHeader := header);
      }
    }

    /** Back the first header up if the element begins in the first unit of the partition. */
    method BackupOnSharedUnit(pid: u16, address: nat, n: nat)
      requires Valid() && Index(pid) < MAX_PARTITIONS && Registered(storage[..], pid, partitions[Index(pid)])
      requires n > 0 && address + n <= storage.Length
      modifies storage, `trace
      ensures var p := partitions[Index(pid)];
              var ws := if UnitStart(geometry, address) == p.firstElementAddress
                        then Backup(geometry, old(storage[..]), SwapAddress(pid), RecordBlob(pid, p)) else [];
        && Valid() && AllFit(storage.Length, ws) && storage[..] == Apply(old(storage[..]), ws) && trace == old(trace) + ws
    {
      hide Apply, TotalSize, Regular, HeaderLen, Registered, SerializeMetadata, SerializeHeader, AllFit, Backup;
      var p := partitions[Index(pid)];
      NoWrites(storage[..]);
      RoomForCopies(storage[..], pid, p);
      UnitsHold(geometry, address, n);
      var ok, unitStart, unitEnd := GetUnitAddressLimits(geometry, address, n);
      if unitStart == p.firstElementAddress {
        var tmp := SerializeMetadata(p.metadata) + SerializeHeader(pid, p.firstElementHeader);
        BackupFirstHeader(SwapAddress(pid), tmp);
      }
    }

    /** The actual storage operations: head, then payload. */
    method WriteHeadAndData(address: nat, head: seq<byte>, data: seq<byte>)
      requires Valid() && address + |head| + |data| <= storage.Length
      modifies storage, `trace
      ensures var ws := [WriteOp(address, head)] + StoreOp(address + |head|, data);
        && Valid() && AllFit(storage.Length, ws) && storage[..] == Apply(old(storage[..]), ws) && trace == old(trace) + ws
    {
      hide Apply, TotalSize, Regular, Write;
      ghost var mem := storage[..];
      OneWrite(mem, WriteOp(address, head));
      StoreBytes(address, head);
      NoWrites(storage[..]);
      if data != [] {
        OneWrite(storage[..], WriteOp(address + |head|, data));
        StoreBytes(address + |head|, data);
      }
      Twice(mem, [WriteOp(address, head)], StoreOp(address + |head|, data));
    }

    /** The second half of `filesystem_store_element`: back up, write the header, write the data. */
    method WriteElement(pid: u16, place: Place, data: seq<byte>)
      requires Valid() && Index(pid) < MAX_PARTITIONS && Registered(storage[..], pid, partitions[Index(pid)])
      requires |data| < 0x1_0000
      requires EndOf(pid, partitions[Index(pid)].firstElementAddress, place.address, |data|) <= storage.Length
      modifies storage, partitions, `trace
      ensures var p := old(partitions[Index(pid)]);
              Did(pid, AfterElement(pid, p, place, data), old(iterators[Index(pid)]),
                  ElementWrites(geometry, old(storage[..]), pid, p, place, data))
    {
      hide Apply, TotalSize, Regular, HeaderLen, NewMetadata, FirstBlob, Checksum, AllFit, Backup, StoreOp;
      var index := Index(pid);
      ghost var mem, p := storage[..], partitions[index];
      var crc := ComputeAll(data);
      var header := Header(place.recordId, place.xor, crc);
      RenewFirstHeader(pid, place, header, |data|);
      var q := partitions[index];
      assert q == WithHeader(pid, p, place, data);
      RenewedIsRegistered(mem, mem, pid, p, place, data);
      hide Registered, WithHeader;
      BackupOnSharedUnit(pid, place.address, HeaderLen(pid) + |data|);
      ghost var backup := CommitBackup(geometry, mem, pid, p, place, data);
      var head := if place.address == q.firstElementAddress then RecordBlob(pid, q) else SerializeHeader(pid, header);
      WriteHeadAndData(place.address, head, data);
      partitions[index] := q.(latestElementAddress := place.address, latestRecordId := place.recordId,
                              latestElementLen := |data|, hasFirstElement := true);
      Twice(mem, backup, [WriteOp(place.address, head)] + StoreOp(place.address + |head|, data));
    }

    /** `filesystem_store_element`. */
    method StoreElement(pid: u16, data: seq<byte>, len: u16) returns (ret: Ret)
      requires Valid() && Index(pid) < MAX_PARTITIONS && Registered(storage[..], pid, partitions[Index(pid)])
      requires EffectiveLen(pid, partitions[Index(pid)], len) <= |data|
      modifies storage, partitions, iterators, `trace
      ensures var r := FsSpec.StoreElement(geometry, old(storage[..]), pid, old(partitions[Index(pid)]),
                                           old(iterators[Index(pid)]), data, len);
        ret == r.ret && Did(pid, r.part, r.iter, r.writes)
    {
      hide Apply, TotalSize, Regular, HeaderLen, AllFit, PrepareStore, CommitElement, Registered, AfterElement, ElementWrites;
      var index := Index(pid);
      NoWrites(storage[..]);
      if !IsDynamic(pid) && len != 0 && len != partitions[index].metadata.firstElementLen {
        return InvalidParam;
      }
      var n := EffectiveLen(pid, partitions[index], len);
      ghost var mem := storage[..];
      ghost var prepared := PrepareStore(geometry, mem, pid, partitions[index], iterators[index], n);
      var ready, refusal, place, next, clear := PrepareElement(pid, n);
      if !ready {
        return refusal;
      }
      ghost var m1 := storage[..];
      EraseHeader(pid, next, clear);
      ghost var m2 := storage[..];
      RegisteredAnywhere(mem, m1, pid, prepared.part);
      RegisteredAnywhere(mem, m2, pid, prepared.part);
      ghost var writes := ElementWrites(geometry, m2, pid, partitions[index], place, data[..n]);
      CommitInSteps(geometry, m1, pid, partitions[index], iterators[index], place, data[..n], prepared.done, prepared.clear, m2);
      WriteElement(pid, place, data[..n]);
      Twice(mem, prepared.done, prepared.clear);
      Twice(mem, prepared.done + prepared.clear, writes);
      return Success;
    }

    /** `filesystem_clear_partition`. */
    method ClearPartition(pid: u16) returns (ret: Ret)
      requires Valid() && Index(pid) < MAX_PARTITIONS && Registered(storage[..], pid, partitions[Index(pid)])
      modifies storage, partitions, `trace
      ensures var r := FsSpec.ClearPartition(geometry, old(storage[..]), pid, old(partitions[Index(pid)]), old(iterators[Index(pid)]));
        ret == r.ret && Did(pid, r.part, r.iter, r.writes)
    {
      hide ReadHeader, Backup, Apply, TotalSize, Regular, HeaderLen, AllFit, Registered, ErasedBlob, IncrementRecordId;
      var index := Index(pid);
      ghost var mem, part := storage[..], partitions[index];
      RoomForCopies(mem, pid, part);
      var start := partitions[index].firstElementAddress;
      ghost var first := ReadHeader(mem, pid, part, start);
      var header, newRecordId;
      ret, header := ReadElementHeader(pid, start);
      if ret == Success {
        newRecordId := IncrementRecordId(header.recordId);
      } else if ret == NotFound {
        newRecordId := 1;
      } else {
        return;
      }
      ghost var m1 := storage[..];
      var tmp := ErasedBlob(pid);
      ghost var backup := Backup(geometry, m1, SwapAddress(pid), tmp);
      BackupFirstHeader(SwapAddress(pid), tmp);
      OneWrite(storage[..], WriteOp(start, tmp));
      StoreBytes(start, tmp);
      Twice(mem, first.writes, backup);
      Twice(mem, first.writes + backup, [WriteOp(start, tmp)]);
      partitions[index] := partitions[index].(hasFirstElement := false, firstElementAddress := start,
                                              latestElementAddress := start, latestRecordId := newRecordId,
                                              latestElementLen := 0);
      return Success;
    }

    /** `filesystem_iterator_init`. */
    method IteratorInit(pid: u16) returns (ret: Ret)
      requires Valid() && Index(pid) < MAX_PARTITIONS
      modifies storage, partitions, iterators, `trace
      ensures var r := FsSpec.IteratorInit(old(storage[..]), pid, old(partitions[Index(pid)]), old(iterators[Index(pid)]));
        ret == r.ret && Did(pid, r.part, r.iter, r.writes)
    {
      hide ReadHeader, Apply, TotalSize, Regular, AllFit;
      var index := Index(pid);
      NoWrites(storage[..]);
      iterators[index] := iterators[index].(valid := false);
      if !partitions[index].hasFirstElement {
        return InvalidState;
      }
      var it := iterators[index].(currentAddress := partitions[index].latestElementAddress,
                                  currentLen := partitions[index].latestElementLen);
      iterators[index] := it;
      var header;
      ret, header := ReadElementHeader(pid, it.currentAddress);
      if ret == NotFound {
        return InvalidState;
      }
      if ret != Success {
        return;
      }
      iterators[index] := it.(currentHeader := header, valid := true);
    }

    /** `filesystem_iterator_invalidate`. */
    method IteratorInvalidate(pid: u16)
      requires Valid() && Index(pid) < MAX_PARTITIONS
      modifies iterators
      ensures Did(pid, partitions[Index(pid)], old(iterators[Index(pid)]).(valid := false), [])
    {
      NoWrites(storage[..]);
      iterators[Index(pid)] := iterators[Index(pid)].(valid := false);
    }

    /** `filesystem_iterator_next`. */
    method IteratorNext(pid: u16) returns (ret: Ret)
      requires Valid() && Index(pid) < MAX_PARTITIONS
      modifies storage, partitions, iterators, `trace
      ensures var r := FsSpec.IteratorNext(old(storage[..]), pid, old(partitions[Index(pid)]), old(iterators[Index(pid)]));
        ret == r.ret && Did(pid, r.part, r.iter, r.writes)
    {
      hide CheckValidity, NextHeader, Apply, TotalSize, Regular, AllFit, NeighbourLen, HeaderLen, SameButMetadata;
      var index := Index(pid);
      ghost var mem, it0 := storage[..], iterators[index];
      ghost var v := CheckValidity(mem, pid, partitions[index], it0);
      ValidKeepsIterator(mem, pid, partitions[index], it0);
      ret := CheckIterator(pid);
      if ret != Success {
        return;
      }
      var it := iterators[index];
      ghost var n := NextHeader(storage[..], pid, partitions[index], it.currentAddress, it.currentHeader.recordId, it.currentLen);
      var address, header;
      ret, address, header := GetNextElementHeader(pid, it.currentAddress, it.currentHeader.recordId, it.currentLen);
      Twice(mem, v.writes, n.writes);
      if ret != Success {
        return;
      }
      var len := NeighbourLen(pid, partitions[index], it.currentLen, header.previousXorCurrent);
      iterators[index] := it.(currentAddress := address, currentLen := len, currentHeader := header);
    }

    /** `filesystem_iterator_previous`. */
    method IteratorPrevious(pid: u16) returns (ret: Ret)
      requires Valid() && Index(pid) < MAX_PARTITIONS
      modifies storage, partitions, iterators, `trace
      ensures var r := FsSpec.IteratorPrevious(old(storage[..]), pid, old(partitions[Index(pid)]), old(iterators[Index(pid)]));
        ret == r.ret && Did(pid, r.part, r.iter, r.writes)
    {
      hide CheckValidity, PreviousHeader, Apply, TotalSize, Regular, AllFit, NeighbourLen, HeaderLen;
      var index := Index(pid);
      ghost var mem, it0 := storage[..], iterators[index];
      ghost var v := CheckValidity(mem, pid, partitions[index], it0);
      ValidKeepsIterator(mem, pid, partitions[index], it0);
      ret := CheckIterator(pid);
      if ret != Success {
        return;
      }
      var it := iterators[index];
      ghost var n := PreviousHeader(storage[..], pid, partitions[index], it.currentAddress, it.currentHeader.recordId, it.currentLen);
      var address, header;
      ret, address, header := GetPreviousElementHeader(pid, it.currentAddress, it.currentHeader.recordId, it.currentLen);
      Twice(mem, v.writes, n.writes);
      if ret != Success {
        return;
      }
      var len := NeighbourLen(pid, partitions[index], it.currentLen, it.currentHeader.previousXorCurrent);
      if address + HeaderLen(pid) + len > partitions[index].firstElementAddress + partitions[index].metadata.partitionSize {
        return NotFound;
      }
      iterators[index] := it.(currentAddress := address, currentLen := len, currentHeader := header);
    }

    /** `filesystem_iterator_read_element`. */
    method IteratorReadElement(pid: u16) returns (ret: Ret, data: seq<byte>, recordId: u16)
      requires Valid() && Index(pid) < MAX_PARTITIONS
      modifies storage, partitions, iterators, `trace
      ensures var r := IteratorRead(old(storage[..]), pid, old(partitions[Index(pid)]), old(iterators[Index(pid)]));
        && ret == r.outcome.ret && data == r.data && recordId == r.recordId
        && Did(pid, r.outcome.part, r.outcome.iter, r.outcome.writes)
    {
      hide CheckValidity, Apply, TotalSize, Regular, AllFit, FullHeaderLen, Checksum;
      var index := Index(pid);
      ghost var mem, it0 := storage[..], iterators[index];
      ValidKeepsIterator(mem, pid, partitions[index], it0);
      ret := CheckIterator(pid);
      if ret != Success {
        return ret, [], 0;
      }
      var it := iterators[index];
      var from := it.currentAddress + FullHeaderLen(pid, partitions[index].firstElementAddress, it.currentAddress);
      if from + it.currentLen > storage.Length {
        return Internal, [], 0;
      }
      data := storage[from..from + it.currentLen];
      if HasCrc(pid) {
        var crc := ComputeAll(data);
        if crc != it.currentHeader.elementCrc {
          return InvalidData, data, 0;
        }
      }
      recordId := it.currentHeader.recordId;
    }

    /** `filesystem_reset`. */
    method ResetPartitions() returns (ret: Ret)
      requires Valid()
      modifies this
      ensures Valid() && trace == old(trace) && (ret, State()) == Reset(geometry, old(State()))
    {
      numberOfPartitions := 0;
      var ok, start, end := GetUnitAddressLimits(geometry, 0, SWAP_PAGE_SIZE);
      if !ok {
        return Internal;
      }
      nextFreeAddress := end + 1;
      return Success;
    }

    /** `filesystem_compute_available_size`. */
    method ComputeAvailableSize(start: nat, required: nat) returns (ok: bool, size: nat)
      requires Valid()
      ensures AvailableSize(geometry, start, required) == if ok then Available(size) else Unavailable
    {
      hide UnitLimits, Regular, TotalSize;
      ok, size := false, 0;
      if start >= storage.Length || required == 0 {
        return;
      }
      size := storage.Length - start;
      if size > required {
        size := required;
      }
      UnitsHold(geometry, start, size);
      var found, unitStart, unitEnd := GetUnitAddressLimits(geometry, start, size);
      if !found || unitStart != start {
        return false, 0;
      }
      return true, unitEnd + 1 - unitStart;
    }

    /** The scan of storage in `filesystem_register_partition`. */
    method ScanPartition(pid: u16) returns (ret: Ret)
      requires Valid() && Index(pid) < MAX_PARTITIONS
      modifies storage, partitions, `trace
      ensures var r := Scan(old(storage[..]), pid, old(partitions[Index(pid)]));
        ret == r.ret && Did(pid, r.part, old(iterators[Index(pid)]), r.writes)
    {
      hide ReadHeader, FindLatest, Apply, TotalSize, Regular, AllFit;
      var index := Index(pid);
      ghost var mem, part := storage[..], partitions[index];
      ghost var first := ReadHeader(mem, pid, part, part.firstElementAddress);
      var header;
      ret, header := ReadElementHeader(pid, partitions[index].firstElementAddress);
      if ret != Success && ret != NotFound {
        return Internal;
      }
      if ret == NotFound {
        partitions[index] := partitions[index].(hasFirstElement := false);
        return Success;
      }
      ghost var latest := FindLatest(storage[..], pid, partitions[index]);
      var address, id, len;
      ret, address, id, len := FindLatestElement(pid);
      Twice(mem, first.writes, latest.writes);
      if ret != Success {
        return;
      }
      partitions[index] := partitions[index].(latestElementAddress := address, latestRecordId := id, latestElementLen := len,
                                              hasFirstElement := true);
    }

    /** `filesystem_register_partition`. */
    method RegisterPartition(req: Request) returns (ret: Ret, pid: u16, size: nat)
      requires Valid()
      modifies this, storage, partitions
      ensures var r := Register(geometry, old(State()), req);
        && Valid() && ret == r.ret && pid == r.pid && size == r.size
        && State() == r.sys && trace == old(trace) + r.writes
    {
      hide Scan, Apply, TotalSize, Regular, AllFit, AvailableSize, HandleOf, HeaderLen;
      pid, size := 0, req.size;
      if numberOfPartitions >= MAX_PARTITIONS {
        return NoMem, pid, size;
      }
      if !req.dynamic && req.elementLen == 0 {
        return InvalidParam, pid, size;
      }
      var elementLen := ElementLen(req);
      var start := nextFreeAddress;
      var ok, available := ComputeAvailableSize(start, req.size);
      if !ok {
        return NoMem, pid, size;
      }
      pid, size := HandleOf(numberOfPartitions, req), available;
      partitions[numberOfPartitions] := FreshRecord(partitions[numberOfPartitions], pid, start, size, elementLen);
      if size < METADATA_SIZE + HeaderLen(pid) + elementLen {
        return NoMem, pid, size;
      }
      ret := ScanPartition(pid);
      if ret != Success {
        return;
      }
      nextFreeAddress := start + size;
      numberOfPartitions := numberOfPartitions + 1;
    }

    /** What `Did` says is what the model of runs does with the state. */
    twostate lemma DidIsAfter(pid: u16, r: Outcome)
      requires Index(pid) < MAX_PARTITIONS && Did(pid, r.part, r.iter, r.writes)
      ensures Valid() && State() == After(old(State()), pid, r) && trace == old(trace) + r.writes
    {
      hide Apply, TotalSize, Regular;
    }

    /** An operation of the iterator. */
    method ExecuteOnIterator(pid: u16, c: FsPerform.Command) returns (ret: Ret)
      requires Valid() && Index(pid) < MAX_PARTITIONS && Registered(storage[..], pid, partitions[Index(pid)])
      requires !c.Store? && !c.Clear?
      modifies storage, partitions, iterators, `trace
      ensures var r := FsPerform.Perform(geometry, old(storage[..]), pid, old(partitions[Index(pid)]), old(iterators[Index(pid)]), c);
        ret == r.ret && Did(pid, r.part, r.iter, r.writes)
    {
      hide FsSpec.StoreElement, FsSpec.ClearPartition, FsSpec.IteratorInit, FsSpec.IteratorNext, FsSpec.IteratorPrevious, IteratorRead,
        TotalSize, Regular, Registered, Did, SameButMetadata, AllFit;
      match c {
        case Init => ret := IteratorInit(pid);
        case Next => ret := IteratorNext(pid);
        case Previous => ret := IteratorPrevious(pid);
        case Read =>
          var data, id;
          ret, data, id := IteratorReadElement(pid);
        case Invalidate =>
          IteratorInvalidate(pid);
          ret := Success;
      }
    }

    /** Any operation on a partition; `DidIsAfter` turns the result into a step of a run. */
    method Execute(pid: u16, c: FsPerform.Command) returns (ret: Ret)
      requires Valid() && Index(pid) < MAX_PARTITIONS && Registered(storage[..], pid, partitions[Index(pid)])
      requires FsPerform.Serves(pid, partitions[Index(pid)], c)
      modifies storage, partitions, iterators, `trace
      ensures var r := FsPerform.Perform(geometry, old(storage[..]), pid, old(partitions[Index(pid)]), old(iterators[Index(pid)]), c);
        ret == r.ret && Did(pid, r.part, r.iter, r.writes)
    {
      hide FsSpec.StoreElement, FsSpec.ClearPartition, FsSpec.IteratorInit, FsSpec.IteratorNext, FsSpec.IteratorPrevious, IteratorRead,
        TotalSize, Regular, Registered, Did, SameButMetadata, AllFit;
      if c.Store? {
        ret := StoreElement(pid, c.data, c.len);
      } else if c.Clear? {
        ret := ClearPartition(pid);
      } else {
        ret := ExecuteOnIterator(pid, c);
      }
    }

    /** A restart: forget all partitions, then repeat the registrations. */
    method Restart(reqs: seq<Request>)
      requires Valid()
      modifies this, storage, partitions
      ensures Valid()
      ensures State() == FsRuns.Rebooted(geometry, old(State()), reqs, old(partitions[..]), old(iterators[..]))
    {
      hide Reset, Register, TotalSize, Regular;
      ghost var s0 := Reset(geometry, State()).1;
      var ret := ResetPartitions();
      assert reqs[..0] == [];
      var i := 0;
      while i < |reqs|
        invariant 0 <= i <= |reqs| && Valid() && Sized(geometry, s0)
        invariant State() == FsRuns.RegisterAll(geometry, s0, reqs[..i])
      {
        assert reqs[..i + 1][..i] == reqs[..i];
        var pid, size;
        ret, pid, size := RegisterPartition(reqs[i]);
        i := i + 1;
      }
      assert reqs[..|reqs|] == reqs;
    }
  }

  /** A valid iterator stays as it is. */
  lemma ValidKeepsIterator(mem: seq<byte>, pid: u16, p: Partition, it: Iterator)
    ensures var v := CheckValidity(mem, pid, p, it); v.ret == Success ==> v.iter == it && it.valid
  {
    hide ReadHeader;
  }

  /** The RAM record after an element has been written. */
  function AfterElement(pid: u16, p: Partition, place: Place, data: seq<byte>): Partition
    requires |data| < 0x1_0000
  {
    WithHeader(pid, p, place, data).(
      latestElementAddress := place.address, latestRecordId := place.recordId, latestElementLen := |data|,
      hasFirstElement := true)
  }

  /** The writes of an element: backup, head, payload. */
  function ElementWrites(g: Geometry, mem: seq<byte>, pid: u16, p: Partition, place: Place, data: seq<byte>): seq<WriteOp>
    requires Regular(g) && TotalSize(g) == |mem| && Registered(mem, pid, p) && |data| < 0x1_0000
    requires EndOf(pid, p.firstElementAddress, place.address, |data|) <= |mem|
  {
    var head := HeadBytes(pid, p, place, data);
    CommitBackup(g, mem, pid, p, place, data) + ([WriteOp(place.address, head)] + StoreOp(place.address + |head|, data))
  }

  lemma CommitUnfolds(g: Geometry, mem: seq<byte>, pid: u16, p: Partition, it: Iterator, place: Place, data: seq<byte>,
                      done: seq<WriteOp>, clear: seq<WriteOp>)
    requires Regular(g) && TotalSize(g) == |mem| && Registered(mem, pid, p) && |data| < 0x1_0000
    requires AllFit(|mem|, clear) && AllFit(|mem|, done) && EndOf(pid, p.firstElementAddress, place.address, |data|) <= |mem|
    ensures Registered(Apply(mem, clear), pid, p) && place.address < |mem|
    ensures CommitElement(g, mem, pid, p, it, place, data, done, clear)
         == Outcome(Success, AfterElement(pid, p, place, data), it,
                    done + StoreWrites(clear, CommitBackup(g, Apply(mem, clear), pid, p, place, data), place.address,
                                       HeadBytes(pid, p, place, data), data))
  {
    RegisteredAnywhere(mem, Apply(mem, clear), pid, p);
    hide CommitBackup, HeadBytes, StoreWrites, WithHeader, Regular, TotalSize, Apply, Registered, FullHeaderLen;
  }

  /** Erasing and then writing the element is the second half of a store. */
  lemma CommitInSteps(g: Geometry, mem: seq<byte>, pid: u16, p: Partition, it: Iterator, place: Place, data: seq<byte>,
                      done: seq<WriteOp>, clear: seq<WriteOp>, m1: seq<byte>)
    requires Regular(g) && TotalSize(g) == |mem| && Registered(mem, pid, p) && |data| < 0x1_0000
    requires AllFit(|mem|, clear) && AllFit(|mem|, done) && EndOf(pid, p.firstElementAddress, place.address, |data|) <= |mem|
    requires m1 == Apply(mem, clear) && Registered(m1, pid, p)
    ensures CommitElement(g, mem, pid, p, it, place, data, done, clear)
         == Outcome(Success, AfterElement(pid, p, place, data), it,
                    done + clear + ElementWrites(g, m1, pid, p, place, data))
  {
    hide *;
    CommitUnfolds(g, mem, pid, p, it, place, data, done, clear);
    WritesInSteps(g, m1, pid, p, place, data, done, clear);
  }

  lemma WritesInSteps(g: Geometry, mem: seq<byte>, pid: u16, p: Partition, place: Place, data: seq<byte>, done: seq<WriteOp>,
                      clear: seq<WriteOp>)
    requires Regular(g) && TotalSize(g) == |mem| && Registered(mem, pid, p) && |data| < 0x1_0000
    requires EndOf(pid, p.firstElementAddress, place.address, |data|) <= |mem| && place.address < |mem|
    ensures done + StoreWrites(clear, CommitBackup(g, mem, pid, p, place, data), place.address, HeadBytes(pid, p, place, data), data)
         == done + clear + ElementWrites(g, mem, pid, p, place, data)
  {
    hide CommitBackup, HeadBytes, StoreWrites, StoreOp, Regular, TotalSize, Registered, FullHeaderLen;
    InSteps(done, clear, CommitBackup(g, mem, pid, p, place, data), place.address, HeadBytes(pid, p, place, data), data);
  }

  lemma InSteps(done: seq<WriteOp>, clear: seq<WriteOp>, backup: seq<WriteOp>, address: nat, head: seq<byte>, data: seq<byte>)
    ensures done + StoreWrites(clear, backup, address, head, data)
         == done + clear + (backup + ([WriteOp(address, head)] + StoreOp(address + |head|, data)))
  {
    hide StoreOp;
  }

  lemma RenewedIsRegistered(mem: seq<byte>, mem': seq<byte>, pid: u16, p: Partition, place: Place, data: seq<byte>)
    requires Registered(mem, pid, p) && |mem'| == |mem| && |data| < 0x1_0000
    ensures Registered(mem', pid, WithHeader(pid, p, place, data)) && Registered(mem', pid, p)
    ensures WithHeader(pid, p, place, data).firstElementAddress == p.firstElementAddress
  {
    hide FirstBlob, BlobCrc, Checksum;
  }

  lemma RegisteredAnywhere(mem: seq<byte>, mem': seq<byte>, pid: u16, p: Partition)
    requires Registered(mem, pid, p) && |mem'| == |mem|
    ensures Registered(mem', pid, p)
  {
  }

  /** Replacing an entry of a unit is writing the entry and taking the unit. */
  lemma ReplacedEntry(mem: seq<byte>, swap: nat, blob: seq<byte>, start: nat, end: nat)
    requires start <= swap && swap + |blob| <= end <= |mem|
    ensures var unit := mem[start..end];
      unit[..swap - start] + blob + unit[swap - start + |blob|..] == Write(mem, swap, blob)[start..end]
  {
  }

  /** Two groups of writes, one after the other. */
  lemma Twice(mem: seq<byte>, a: seq<WriteOp>, b: seq<WriteOp>)
    ensures AllFit(|mem|, a) && AllFit(|mem|, b) ==> AllFit(|mem|, a + b) && Apply(mem, a + b) == Apply(Apply(mem, a), b)
  {
    if AllFit(|mem|, a) && AllFit(|mem|, b) {
      ApplyConcat(mem, a, b);
    }
  }

  lemma ExpectedAt(mem: seq<byte>, pid: u16, p: Partition, address: nat, id: u16)
    ensures ExpectHeader(mem, pid, p, address, id).address == address
  {
    hide ReadHeader;
  }

  /** One more step of the walk. */
  lemma LookFurther(mem: seq<byte>, pid: u16, p: Partition, firstLen: u16, address: nat, id: u16, len: u16, done: seq<WriteOp>)
    requires address <= |mem|
    requires var n := NextHeader(mem, pid, p, address, id, len); n.ret == Success && n.address > address
    ensures var n := NextHeader(mem, pid, p, address, id, len);
            var nextLen := if IsDynamic(pid) then Xor16(len, n.header.previousXorCurrent) else firstLen;
            var rest := WalkToLatest(Apply(mem, n.writes), pid, n.part, firstLen, n.address, n.header.recordId, nextLen);
            var r := WalkToLatest(mem, pid, p, firstLen, address, id, len);
      && r == rest.(writes := n.writes + rest.writes)
      && done + r.writes == (done + n.writes) + rest.writes
  {
    hide NextHeader, Xor16, Apply, HeaderLen;
  }

  /** The end of the walk. */
  lemma StopsHere(mem: seq<byte>, pid: u16, p: Partition, firstLen: u16, address: nat, id: u16, len: u16)
    requires address <= |mem|
    ensures var n := NextHeader(mem, pid, p, address, id, len);
            !(n.ret == Success && n.address > address) ==>
              WalkToLatest(mem, pid, p, firstLen, address, id, len)
              == Latest(if n.ret == Success || n.ret == NotFound then Success else n.ret, n.part, address, id, len, n.writes)
  {
    hide NextHeader, Xor16, Apply, HeaderLen;
  }

  lemma NoWrites(mem: seq<byte>)
    ensures AllFit(|mem|, []) && Apply(mem, []) == mem
  {
  }

  lemma OneWrite(mem: seq<byte>, w: WriteOp)
    requires Fits(mem, w)
    ensures AllFit(|mem|, [w]) && Apply(mem, [w]) == Write(mem, w.address, w.data)
  {
    assert [w][1..] == [];
  }

}
