/** What stands where in storage, byte by byte, and what the code makes of bytes of any kind (filesystem_lib.c). */
module FsBytes {
  import opened Bytes
  import opened Words
  import opened Crc16
  import opened Units
  import opened FsTypes
  import opened FsSpec
  import opened FsLog

  // ---- records in storage ----

  lemma Encoded16At(mem: seq<byte>, i: nat, n: u16)
    ensures Holds(mem, i, Encode16(n)) <==> U16At(mem, i, n)
  {
    Decode16Encode16(n);
    if i + 2 <= |mem| {
      assert mem[i..i + 2] == [mem[i], mem[i + 1]];
    }
  }

  lemma Encoded32At(mem: seq<byte>, i: nat, n: nat)
    requires n < 0x1_0000_0000
    ensures Holds(mem, i, Encode32(n)) <==> U32At(mem, i, n)
  {
    Decode32Encode32(n);
    if i + 4 <= |mem| {
      assert mem[i..i + 4] == [mem[i], mem[i + 1], mem[i + 2], mem[i + 3]];
      Encode32Decode32(mem[i..i + 4]);
    }
    hide Encode32;
  }

  /** The fourteen bytes of metadata: checksum, identifier, size, length of the first element, address of the last one. */
  predicate MetadataAt(mem: seq<byte>, i: nat, m: Metadata) {
    && U16At(mem, i, m.headerCrc) && U16At(mem, i + 2, m.partitionId) && U32At(mem, i + 4, m.partitionSize)
    && U16At(mem, i + 8, m.firstElementLen) && U32At(mem, i + 10, m.lastElementAddress)
  }

  /** A header: record identifier, exclusive or of lengths if the partition is dynamic, checksum if it has one. */
  predicate HeaderAt(mem: seq<byte>, i: nat, pid: u16, h: Header) {
    && U16At(mem, i, h.recordId)
    && (pid >= 0x8000 ==> U16At(mem, i + 2, h.previousXorCurrent))
    && (pid / 0x4000 % 2 == 1 ==> U16At(mem, if pid >= 0x8000 then i + 4 else i + 2, h.elementCrc))
  }

  lemma MetadataStands(mem: seq<byte>, i: nat, m: Metadata)
    requires Storable(m)
    ensures Holds(mem, i, SerializeMetadata(m)) <==> MetadataAt(mem, i, m)
  {
    hide Encode16, Encode32, U16At, U32At, Holds;
    var a, b, c := Encode16(m.headerCrc), Encode16(m.partitionId), Encode32(m.partitionSize);
    var d, e := Encode16(m.firstElementLen), Encode32(m.lastElementAddress);
    HoldsSplit(mem, i, a + b + c + d, e);
    HoldsSplit(mem, i, a + b + c, d);
    HoldsSplit(mem, i, a + b, c);
    HoldsSplit(mem, i, a, b);
    Encoded16At(mem, i, m.headerCrc);
    Encoded16At(mem, i + 2, m.partitionId);
    Encoded32At(mem, i + 4, m.partitionSize);
    Encoded16At(mem, i + 8, m.firstElementLen);
    Encoded32At(mem, i + 10, m.lastElementAddress);
  }

  lemma HeaderStands(mem: seq<byte>, i: nat, pid: u16, h: Header)
    ensures Holds(mem, i, SerializeHeader(pid, h)) <==> HeaderAt(mem, i, pid, h)
    ensures HeaderLen(pid) == 2 + (if pid >= 0x8000 then 2 else 0) + (if pid / 0x4000 % 2 == 1 then 2 else 0)
  {
    hide Encode16, U16At, Holds;
    var a, b, c := Encode16(h.recordId), Encode16(h.previousXorCurrent), Encode16(h.elementCrc);
    HoldsSplit(mem, i, a + b, c);
    HoldsSplit(mem, i, a, b);
    HoldsSplit(mem, i, a, c);
    assert a + [] == a && a + b + [] == a + b && a + [] + c == a + c;
    Encoded16At(mem, i, h.recordId);
    Encoded16At(mem, i + 2, h.previousXorCurrent);
    Encoded16At(mem, i + 2, h.elementCrc);
    Encoded16At(mem, i + 4, h.elementCrc);
  }

  /** The copies in the swap page stand in slots of twenty bytes, twenty of them. */
  lemma SwapSlots(pid: u16)
    ensures SwapAddress(pid) == 20 * (pid % 0x4000) && SWAP_PAGE_SIZE == 400
  {
  }

  /** What a store leaves in storage, of an element behind the first one. */
  lemma ElementBytes(mem: seq<byte>, pid: u16, start: nat, e: Elem)
    ensures Lies(mem, pid, start, e) <==>
              && 1 <= e.id <= 0xFFFE && |e.data| < 0x1_0000 && start < e.address
              && HeaderAt(mem, e.address, pid, Header(e.id, e.xor, Checksum(e.data)))
              && Holds(mem, e.address + HeaderLen(pid), e.data)
  {
    hide Checksum, HeaderAt, Holds, SerializeHeader;
    HeaderStands(mem, e.address, pid, ElemHeader(e));
    HoldsSplit(mem, e.address, SerializeHeader(pid, ElemHeader(e)), e.data);
  }

  /** And of the first one: metadata, header, payload; the checksum is that of all that follows it up to the payload. */
  lemma FirstElementBytes(mem: seq<byte>, pid: u16, p: Partition, e: Elem)
    requires LiesFirst(mem, pid, p, e)
    ensures var i, n := p.firstElementAddress, 14 + HeaderLen(pid);
      && e.address == i && i + n + |e.data| <= |mem|
      && MetadataAt(mem, i, p.metadata) && HeaderAt(mem, i + 14, pid, Header(e.id, e.xor, Checksum(e.data)))
      && Holds(mem, i + n, e.data) && p.metadata.firstElementLen == |e.data|
      && U16At(mem, i, Checksum(mem[i + 2..i + n]))
  {
    hide Checksum, U32At, HeaderAt, SerializeHeader, SerializeMetadata, Sealed;
    var i, h := p.firstElementAddress, ElemHeader(e);
    var head := SerializeMetadata(p.metadata) + SerializeHeader(pid, h);
    assert FirstBlob(pid, p.metadata, h) == head;
    HoldsSplit(mem, i, head, e.data);
    HoldsSplit(mem, i, SerializeMetadata(p.metadata), SerializeHeader(pid, h));
    MetadataStands(mem, i, p.metadata);
    HeaderStands(mem, i + 14, pid, h);
    assert mem[i..i + |head|] == head && |head| == 14 + HeaderLen(pid);
    SealIsChecksum(pid, p.metadata, h);
    assert mem[i + 2..i + |head|] == head[2..];
  }

  lemma SealIsChecksum(pid: u16, m: Metadata, h: Header)
    requires m == Sealed(pid, m, h)
    ensures m.headerCrc == Checksum(FirstBlob(pid, m, h)[2..])
  {
    SealIgnoresSeal(pid, m, h, 0);
    hide FirstBlob, Checksum;
  }

  // ---- reading bytes of any kind ----

  lemma Decoded16At(s: seq<byte>, i: nat, n: int)
    requires i + 2 <= |s|
    ensures Decode16(s[i..i + 2]) == n <==> U16At(s, i, n)
  {
    assert s[i..i + 2] == [s[i], s[i + 1]];
  }

  lemma Decoded32At(s: seq<byte>, i: nat, n: int)
    requires i + 4 <= |s|
    ensures Decode32(s[i..i + 4]) == n <==> U32At(s, i, n)
  {
    assert s[i..i + 4] == [s[i], s[i + 1], s[i + 2], s[i + 3]];
  }

  /** What the partition does not keep reads as 0. */
  predicate KeptOnly(pid: u16, h: Header) {
    (pid < 0x8000 ==> h.previousXorCurrent == 0) && (pid / 0x4000 % 2 == 0 ==> h.elementCrc == 0)
  }

  lemma HeaderReads(pid: u16, s: seq<byte>, h: Header)
    requires |s| == HeaderLen(pid)
    ensures DeserializeHeader(pid, s) == h <==> HeaderAt(s, 0, pid, h) && KeptOnly(pid, h)
  {
    hide Decode16, U16At;
    Decoded16At(s, 0, h.recordId);
    if IsDynamic(pid) {
      Decoded16At(s, 2, h.previousXorCurrent);
    }
    if HasCrc(pid) {
      Decoded16At(s, if IsDynamic(pid) then 4 else 2, h.elementCrc);
    }
  }

  lemma PartAt(mem: seq<byte>, from: nat, n: nat, i: nat, v: int)
    requires from + n <= |mem| && i + 2 <= n
    ensures U16At(mem[from..from + n], i, v) <==> U16At(mem, from + i, v)
  {
  }

  /** A header behind the first one: whatever stands there is read, if there are as many bytes. */
  lemma ReadsWhatStands(mem: seq<byte>, pid: u16, p: Partition, address: nat, h: Header)
    requires address != p.firstElementAddress
    ensures ReadHeader(mem, pid, p, address).ret == if address + HeaderLen(pid) <= |mem| then Success else Internal
    ensures address + HeaderLen(pid) <= |mem| ==>
              (ReadHeader(mem, pid, p, address).header == h <==> HeaderAt(mem, address, pid, h) && KeptOnly(pid, h))
  {
    var n := HeaderLen(pid);
    if address + n <= |mem| {
      var s := mem[address..address + n];
      HeaderReads(pid, s, h);
      PartAt(mem, address, n, 0, h.recordId);
      if IsDynamic(pid) {
        PartAt(mem, address, n, 2, h.previousXorCurrent);
      }
      if HasCrc(pid) {
        PartAt(mem, address, n, if IsDynamic(pid) then 4 else 2, h.elementCrc);
      }
      hide DeserializeHeader, U16At;
    }
  }

  /**
   * A first header counts exactly if its checksum is right and identifier, size and - unless the partition is dynamic - the
   * length of its elements are those registered; of one with a wrong checksum the copy in the swap page is tried.
   */
  lemma JudgedByBytes(pid: u16, p: Partition, blob: seq<byte>)
    requires |blob| == METADATA_SIZE + HeaderLen(pid)
    ensures Judge(pid, p, blob).BadCrc? <==> !U16At(blob, 0, Checksum(blob[2..]))
    ensures Judge(pid, p, blob).Good? <==>
              && U16At(blob, 0, Checksum(blob[2..])) && U16At(blob, 2, p.metadata.partitionId)
              && U32At(blob, 4, p.metadata.partitionSize)
              && (pid >= 0x8000 || U16At(blob, 8, p.metadata.firstElementLen))
    ensures Judge(pid, p, blob).Good? ==> MetadataAt(blob, 0, Judge(pid, p, blob).metadata)
  {
    hide Checksum, Decode16, Decode32, DeserializeHeader, HeaderLen;
    var s := blob[..METADATA_SIZE];
    var m := DeserializeMetadata(s);
    assert s[0..2] == blob[0..2] && s[2..4] == blob[2..4] && s[4..8] == blob[4..8];
    assert s[8..10] == blob[8..10] && s[10..14] == blob[10..14];
    Decoded16At(blob, 0, Checksum(blob[2..]));
    Decoded16At(blob, 0, m.headerCrc);
    Decoded16At(blob, 2, p.metadata.partitionId);
    Decoded16At(blob, 2, m.partitionId);
    Decoded32At(blob, 4, p.metadata.partitionSize);
    Decoded32At(blob, 4, m.partitionSize);
    Decoded16At(blob, 8, p.metadata.firstElementLen);
    Decoded16At(blob, 8, m.firstElementLen);
    Decoded32At(blob, 10, m.lastElementAddress);
    hide U16At, U32At;
  }

  /** An iterator behind the first element is valid exactly as long as the header it has read still stands there. */
  lemma ValidIffStands(mem: seq<byte>, pid: u16, p: Partition, it: Iterator)
    requires it.valid && p.hasFirstElement && it.currentAddress != p.firstElementAddress
    requires it.currentAddress + HeaderLen(pid) <= |mem|
    ensures var r := CheckValidity(mem, pid, p, it);
      && r.ret == (if HeaderAt(mem, it.currentAddress, pid, it.currentHeader) then Success else InvalidState)
      && r.iter == it.(valid := r.ret == Success)
  {
    hide DeserializeHeader, HeaderLen, U16At;
    var h := ReadHeader(mem, pid, p, it.currentAddress).header;
    ReadsWhatStands(mem, pid, p, it.currentAddress, h);
    ReadsWhatStands(mem, pid, p, it.currentAddress, Kept(pid, it.currentHeader));
  }

  /** A store is not in the way of an iterator whose header is gone; one whose header cannot be read makes the check fail. */
  lemma ConflictAnswers(g: Geometry, mem: seq<byte>, pid: u16, p: Partition, it: Iterator, address: nat, len: u16)
    requires Regular(g) && it.valid && p.hasFirstElement && it.currentAddress != p.firstElementAddress
    ensures var r := CheckConflict(g, mem, pid, p, it, address, len);
      && (it.currentAddress + HeaderLen(pid) > |mem| ==> r.ret == Internal && r.iter == it)
      && (it.currentAddress + HeaderLen(pid) <= |mem| && !HeaderAt(mem, it.currentAddress, pid, it.currentHeader) ==>
            r.ret == Success && r.iter == it.(valid := false))
  {
    hide HeaderAt, HeaderLen, UnitLimits, Regular;
    ReadsWhatStands(mem, pid, p, it.currentAddress, it.currentHeader);
    if it.currentAddress + HeaderLen(pid) <= |mem| {
      ValidIffStands(mem, pid, p, it);
      hide CheckValidity;
    }
    hide ReadHeader;
  }

  // ---- in any storage ----

  /** Initialising succeeds if there is an element whose header can be read, and only then leaves a valid iterator, on it. */
  lemma InitAnswers(mem: seq<byte>, pid: u16, p: Partition, it: Iterator)
    ensures var r := IteratorInit(mem, pid, p, it);
      && (r.iter.valid <==> r.ret == Success)
      && (!p.hasFirstElement ==> r.ret == InvalidState)
      && (p.hasFirstElement ==> r.iter.currentAddress == p.latestElementAddress && r.iter.currentLen == p.latestElementLen)
      && (p.hasFirstElement && p.latestElementAddress != p.firstElementAddress ==>
            r.ret == (if p.latestElementAddress + HeaderLen(pid) <= |mem| then Success else Internal)
            && (r.ret == Success ==> HeaderAt(mem, p.latestElementAddress, pid, r.iter.currentHeader)))
  {
    hide HeaderLen, HeaderAt;
    if p.hasFirstElement && p.latestElementAddress != p.firstElementAddress {
      ReadsWhatStands(mem, pid, p, p.latestElementAddress, ReadHeader(mem, pid, p, p.latestElementAddress).header);
    }
    hide ReadHeader;
  }

  /** Reading behind the first element yields the bytes behind the header; they are invalid if their checksum is another one. */
  lemma ReadAnswers(mem: seq<byte>, pid: u16, p: Partition, it: Iterator)
    requires it.valid && p.hasFirstElement && it.currentAddress != p.firstElementAddress
    requires HeaderAt(mem, it.currentAddress, pid, it.currentHeader)
    requires it.currentAddress + HeaderLen(pid) + it.currentLen <= |mem|
    ensures var from := it.currentAddress + HeaderLen(pid);
            var data, r := mem[from..from + it.currentLen], IteratorRead(mem, pid, p, it);
      && r.data == data
      && r.outcome.ret == (if pid / 0x4000 % 2 == 1 && Checksum(data) != it.currentHeader.elementCrc then InvalidData
                           else Success)
      && (r.outcome.ret == Success ==> r.recordId == it.currentHeader.recordId)
  {
    ValidIffStands(mem, pid, p, it);
    hide HeaderAt, HeaderLen;
    ReadsWhatStands(mem, pid, p, it.currentAddress, it.currentHeader);
    ApplyNothing(mem);
    assert CheckValidity(mem, pid, p, it).writes == [];
    hide ReadHeader, Checksum, CheckValidity;
  }

  /** Whatever storage holds: a step forward leads to the start, or to an element that ends in the partition. */
  lemma NextStaysInside(mem: seq<byte>, pid: u16, p: Partition, it: Iterator)
    requires IteratorNext(mem, pid, p, it).ret == Success
    ensures var it' := IteratorNext(mem, pid, p, it).iter;
      it'.currentAddress == p.firstElementAddress
      || it'.currentAddress + HeaderLen(pid) + it'.currentLen <= PartEnd(p)
  {
    hide ReadHeader, HeaderLen, Apply, IncrementRecordId, FullHeaderLen;
  }

  /** A step that finds nothing leaves the iterator where it is. */
  lemma NothingFoundStays(mem: seq<byte>, pid: u16, p: Partition, it: Iterator)
    ensures IteratorNext(mem, pid, p, it).ret == NotFound ==> it.valid && IteratorNext(mem, pid, p, it).iter == it
    ensures IteratorPrevious(mem, pid, p, it).ret == NotFound ==> it.valid && IteratorPrevious(mem, pid, p, it).iter == it
  {
    hide ReadHeader, HeaderLen, Apply, NextHeader, PreviousHeader;
  }

  /** A step back leads to an element that ends in the partition. */
  lemma PreviousStaysInside(mem: seq<byte>, pid: u16, p: Partition, it: Iterator)
    requires IteratorPrevious(mem, pid, p, it).ret == Success && p.firstElementAddress <= it.currentAddress
    ensures var it' := IteratorPrevious(mem, pid, p, it).iter;
      p.firstElementAddress <= it'.currentAddress && it'.currentAddress + HeaderLen(pid) + it'.currentLen <= PartEnd(p)
  {
    hide ReadHeader, HeaderLen, Apply, DecrementRecordId;
  }
}
