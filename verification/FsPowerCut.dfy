/**
 * Power cuts. Metadata and first header stand in storage twice, and a store or a clear renews the two copies one
 * after the other: wherever the supply fails, the header found afterwards is the one before or the one behind the
 * operation, provided a torn copy does not pass its checksum.
 */
module FsPowerCut {
  import opened Bytes
  import opened Words
  import opened Crc16
  import opened Units
  import opened FsTypes
  import opened FsSpec
  import opened FsLog
  import opened FsStore
  import opened FsKeep
  import opened FsClear
  import opened FsRecovery

  // ---- what is found at power-up ----

  datatype Find = Nothing | Found(metadata: Metadata, header: Header)

  /** The copy at the start counts if its checksum is right, else the copy in the swap page. */
  function FindIn(first: Verdict, swap: Verdict): Find {
    match first
    case Good(m, h) => Found(m, h)
    case Foreign => Nothing
    case BadCrc => if swap.Good? then Found(swap.metadata, swap.header) else Nothing
  }

  /** Both copies lie in storage, the one in the swap page below the other. */
  predicate Placed(mem: seq<byte>, pid: u16, p: Partition) {
    SwapEnd(pid) <= p.firstElementAddress && p.firstElementAddress + FirstLen(pid) <= |mem|
  }

  function StartCopy(mem: seq<byte>, pid: u16, p: Partition): (s: seq<byte>)
    requires Placed(mem, pid, p)
    ensures |s| == FirstLen(pid)
  {
    mem[p.firstElementAddress..p.firstElementAddress + FirstLen(pid)]
  }

  function SwapCopy(mem: seq<byte>, pid: u16, p: Partition): (s: seq<byte>)
    requires Placed(mem, pid, p)
    ensures |s| == FirstLen(pid)
  {
    mem[SwapAddress(pid)..SwapAddress(pid) + FirstLen(pid)]
  }

  function FindFirst(mem: seq<byte>, pid: u16, p: Partition): Find
    requires Placed(mem, pid, p)
  {
    FindIn(Judge(pid, p, StartCopy(mem, pid, p)), Judge(pid, p, SwapCopy(mem, pid, p)))
  }

  lemma RegisteredIsPlaced(mem: seq<byte>, pid: u16, p: Partition)
    requires Registered(mem, pid, p)
    ensures Placed(mem, pid, p)
  {
  }

  /** Reading the first header is finding it. */
  lemma ReadIsFind(mem: seq<byte>, pid: u16, p: Partition)
    requires Placed(mem, pid, p)
    ensures var r, f := ReadFirst(mem, pid, p), FindFirst(mem, pid, p);
            match f
            case Nothing => r == HeaderRead(NotFound, p, NO_HEADER, [])
            case Found(m, h) => r.ret == Success && r.part == p.(metadata := m) && r.header == h
  {
    hide Judge, HeaderLen, SwapAddress;
  }

  // ---- cuts ----

  /** Any bytes but the old and the new ones fail their checksum. */
  ghost predicate TornCopy(pid: u16, p: Partition, before: seq<byte>, after: seq<byte>, torn: seq<byte>)
    requires |torn| == FirstLen(pid)
  {
    torn == before || torn == after || Judge(pid, p, torn) == BadCrc
  }

  /** The supply fails during the write `w`: its range may hold any bytes, but no torn copy of the header looks right. */
  ghost predicate Torn(mem: seq<byte>, w: WriteOp, mem': seq<byte>, pid: u16, p: Partition)
    requires Fits(mem, w) && Placed(mem, pid, p)
  {
    && ChangedOnly(mem, mem', w.address, w.address + |w.data|, 0, 0)
    && (var after := Write(mem, w.address, w.data);
        && TornCopy(pid, p, StartCopy(mem, pid, p), StartCopy(after, pid, p), StartCopy(mem', pid, p))
        && TornCopy(pid, p, SwapCopy(mem, pid, p), SwapCopy(after, pid, p), SwapCopy(mem', pid, p)))
  }

  /** What the writes `ws` may leave behind if the supply fails before, in, between or after them. */
  ghost predicate Cut(mem: seq<byte>, ws: seq<WriteOp>, mem': seq<byte>, pid: u16, p: Partition)
    requires AllFit(|mem|, ws) && Placed(mem, pid, p)
    decreases |ws|
  {
    || mem' == mem
    || (ws != [] && (|| Torn(mem, ws[0], mem', pid, p)
                     || Cut(Write(mem, ws[0].address, ws[0].data), ws[1..], mem', pid, p)))
  }

  lemma FitsConcat(size: nat, a: seq<WriteOp>, b: seq<WriteOp>)
    ensures AllFit(size, a + b) <==> AllFit(size, a) && AllFit(size, b)
  {
    if AllFit(size, a + b) {
      forall i | 0 <= i < |a| ensures a[i].address + |a[i].data| <= size {
        assert a[i] == (a + b)[i];
      }
      forall i | 0 <= i < |b| ensures b[i].address + |b[i].data| <= size {
        assert b[i] == (a + b)[|a| + i];
      }
    }
  }

  /** A cut falls into the first part of the writes, or into the second after the first is complete. */
  lemma {:induction false} CutSplit(mem: seq<byte>, a: seq<WriteOp>, b: seq<WriteOp>, mem': seq<byte>, pid: u16, p: Partition)
    requires Placed(mem, pid, p) && AllFit(|mem|, a) && AllFit(|mem|, b) && AllFit(|mem|, a + b)
    requires Cut(mem, a + b, mem', pid, p)
    ensures Cut(mem, a, mem', pid, p) || Cut(Apply(mem, a), b, mem', pid, p)
    decreases |a|
  {
    hide Torn, Placed;
    if a == [] {
      assert a + b == b;
    } else if mem' != mem && !Torn(mem, a[0], mem', pid, p) {
      assert (a + b)[0] == a[0] && (a + b)[1..] == a[1..] + b;
      var next := Write(mem, a[0].address, a[0].data);
      SamePlace(mem, next, pid, p);
      CutSplit(next, a[1..], b, mem', pid, p);
    }
  }

  lemma SamePlace(mem: seq<byte>, mem': seq<byte>, pid: u16, p: Partition)
    requires Placed(mem, pid, p) && |mem'| == |mem|
    ensures Placed(mem', pid, p)
  {
  }

  /** A write that touches neither copy. */
  predicate Beside(w: WriteOp, pid: u16, p: Partition) {
    && (w.address + |w.data| <= SwapAddress(pid) || SwapEnd(pid) <= w.address)
    && (w.address + |w.data| <= p.firstElementAddress || p.firstElementAddress + FirstLen(pid) <= w.address)
  }

  predicate AllBeside(ws: seq<WriteOp>, pid: u16, p: Partition) {
    forall i :: 0 <= i < |ws| ==> Beside(ws[i], pid, p)
  }

  predicate SameCopies(mem: seq<byte>, mem': seq<byte>, pid: u16, p: Partition)
    requires Placed(mem, pid, p)
  {
    && |mem'| == |mem|
    && StartCopy(mem', pid, p) == StartCopy(mem, pid, p) && SwapCopy(mem', pid, p) == SwapCopy(mem, pid, p)
  }

  lemma BesideKeeps(mem: seq<byte>, mem': seq<byte>, w: WriteOp, pid: u16, p: Partition)
    requires Placed(mem, pid, p) && Beside(w, pid, p)
    requires ChangedOnly(mem, mem', w.address, w.address + |w.data|, 0, 0)
    ensures SameCopies(mem, mem', pid, p)
  {
    hide HeaderLen;
  }

  lemma {:induction false} CutBeside(mem: seq<byte>, ws: seq<WriteOp>, mem': seq<byte>, pid: u16, p: Partition)
    requires Placed(mem, pid, p) && AllFit(|mem|, ws) && AllBeside(ws, pid, p) && Cut(mem, ws, mem', pid, p)
    ensures SameCopies(mem, mem', pid, p)
    decreases |ws|
  {
    hide Beside, SwapAddress, HeaderLen, TornCopy;
    if ws != [] && mem' != mem {
      var next := Write(mem, ws[0].address, ws[0].data);
      BesideKeeps(mem, next, ws[0], pid, p);
      if Torn(mem, ws[0], mem', pid, p) {
        BesideKeeps(mem, mem', ws[0], pid, p);
      } else {
        CutBeside(next, ws[1..], mem', pid, p);
      }
    }
  }

  lemma {:induction false} ApplyIsCut(mem: seq<byte>, ws: seq<WriteOp>, pid: u16, p: Partition)
    requires Placed(mem, pid, p) && AllFit(|mem|, ws)
    ensures Cut(mem, ws, Apply(mem, ws), pid, p)
    decreases |ws|
  {
    hide Torn, Placed;
    if ws != [] {
      var next := Write(mem, ws[0].address, ws[0].data);
      SamePlace(mem, next, pid, p);
      ApplyIsCut(next, ws[1..], pid, p);
    }
  }

  lemma CutOfOne(mem: seq<byte>, w: WriteOp, mem': seq<byte>, pid: u16, p: Partition)
    requires Placed(mem, pid, p) && Fits(mem, w) && AllFit(|mem|, [w]) && Cut(mem, [w], mem', pid, p)
    ensures mem' == mem || Torn(mem, w, mem', pid, p) || mem' == Write(mem, w.address, w.data)
  {
    hide Torn, Placed;
    var next := Write(mem, w.address, w.data);
    assert Placed(next, pid, p) by { SamePlace(mem, next, pid, p); }
    assert [w][1..] == [];
    assert Cut(next, [], mem', pid, p) ==> mem' == next;
  }

  // ---- renewing the two copies ----

  /** Writes that renew both copies with `blob`: first the one in the swap page, unless it is right already. */
  predicate Renewal(mem: seq<byte>, pid: u16, p: Partition, pre: seq<WriteOp>, backup: seq<WriteOp>, blob: seq<byte>,
                    post: seq<WriteOp>)
  {
    && Placed(mem, pid, p) && |blob| == FirstLen(pid)
    && AllFit(|mem|, pre) && AllFit(|mem|, post)
    && AllBeside(pre, pid, p) && AllBeside(post, pid, p)
    && (backup == [WriteOp(SwapAddress(pid), blob)] || (backup == [] && SwapCopy(mem, pid, p) == blob))
  }

  function RenewalWrites(p: Partition, pre: seq<WriteOp>, backup: seq<WriteOp>, blob: seq<byte>, post: seq<WriteOp>): seq<WriteOp> {
    pre + backup + [WriteOp(p.firstElementAddress, blob)] + post
  }

  lemma RenewalFits(mem: seq<byte>, pid: u16, p: Partition, pre: seq<WriteOp>, backup: seq<WriteOp>, blob: seq<byte>,
                    post: seq<WriteOp>)
    requires Renewal(mem, pid, p, pre, backup, blob, post)
    ensures AllFit(|mem|, RenewalWrites(p, pre, backup, blob, post))
    ensures AllFit(|mem|, backup) && AllFit(|mem|, pre + backup)
    ensures AllFit(|mem|, [WriteOp(p.firstElementAddress, blob)])
    ensures AllFit(|mem|, pre + backup + [WriteOp(p.firstElementAddress, blob)])
  {
    hide AllBeside, SwapCopy;
    assert AllFit(|mem|, backup) && AllFit(|mem|, [WriteOp(p.firstElementAddress, blob)]);
    hide AllFit, Placed;
    FitsConcat(|mem|, pre, backup);
    FitsConcat(|mem|, pre + backup, [WriteOp(p.firstElementAddress, blob)]);
    FitsConcat(|mem|, pre + backup + [WriteOp(p.firstElementAddress, blob)], post);
  }

  /** The stages a pair of copies goes through. */
  ghost predicate Stage(pid: u16, p: Partition, s0: seq<byte>, w0: seq<byte>, blob: seq<byte>, s: seq<byte>, w: seq<byte>)
    requires |s| == |w| == FirstLen(pid)
  {
    || (s == s0 && TornCopy(pid, p, w0, blob, w))
    || (TornCopy(pid, p, s0, blob, s) && w == blob)
  }

  lemma WrittenCopies(mem: seq<byte>, pid: u16, p: Partition, blob: seq<byte>)
    requires Placed(mem, pid, p) && |blob| == FirstLen(pid)
    ensures var m := Write(mem, SwapAddress(pid), blob);
            SwapCopy(m, pid, p) == blob && StartCopy(m, pid, p) == StartCopy(mem, pid, p)
    ensures var m := Write(mem, p.firstElementAddress, blob);
            StartCopy(m, pid, p) == blob && SwapCopy(m, pid, p) == SwapCopy(mem, pid, p)
  {
    hide HeaderLen;
  }

  /** What changes elsewhere leaves a stretch of storage alone. */
  lemma StretchKept(mem: seq<byte>, mem': seq<byte>, lo: nat, hi: nat, a: nat, n: nat)
    requires ChangedOnly(mem, mem', lo, hi, 0, 0) && a + n <= |mem| && (hi <= a || a + n <= lo)
    ensures mem'[a..a + n] == mem[a..a + n]
  {
  }

  lemma TornIs(mem: seq<byte>, w: WriteOp, mem': seq<byte>, pid: u16, p: Partition)
    requires Fits(mem, w) && Placed(mem, pid, p) && Torn(mem, w, mem', pid, p)
    ensures ChangedOnly(mem, mem', w.address, w.address + |w.data|, 0, 0)
    ensures var after := Write(mem, w.address, w.data);
      && TornCopy(pid, p, StartCopy(mem, pid, p), StartCopy(after, pid, p), StartCopy(mem', pid, p))
      && TornCopy(pid, p, SwapCopy(mem, pid, p), SwapCopy(after, pid, p), SwapCopy(mem', pid, p))
  {
    hide TornCopy, StartCopy, SwapCopy, Write;
  }

  /** A torn write of one copy leaves the other alone. */
  lemma TornSwap(mem: seq<byte>, pid: u16, p: Partition, blob: seq<byte>, mem': seq<byte>)
    requires Placed(mem, pid, p) && |blob| == FirstLen(pid) && Torn(mem, WriteOp(SwapAddress(pid), blob), mem', pid, p)
    ensures |mem'| == |mem| && StartCopy(mem', pid, p) == StartCopy(mem, pid, p)
    ensures TornCopy(pid, p, SwapCopy(mem, pid, p), blob, SwapCopy(mem', pid, p))
  {
    hide Torn, TornCopy, Write, HeaderLen, SwapAddress;
    TornIs(mem, WriteOp(SwapAddress(pid), blob), mem', pid, p);
    WrittenCopies(mem, pid, p, blob);
    StretchKept(mem, mem', SwapAddress(pid), SwapEnd(pid), p.firstElementAddress, FirstLen(pid));
  }

  lemma TornStart(mem: seq<byte>, pid: u16, p: Partition, blob: seq<byte>, mem': seq<byte>)
    requires Placed(mem, pid, p) && |blob| == FirstLen(pid) && Torn(mem, WriteOp(p.firstElementAddress, blob), mem', pid, p)
    ensures |mem'| == |mem| && SwapCopy(mem', pid, p) == SwapCopy(mem, pid, p)
    ensures TornCopy(pid, p, StartCopy(mem, pid, p), blob, StartCopy(mem', pid, p))
  {
    hide Torn, TornCopy, Write, HeaderLen, SwapAddress;
    TornIs(mem, WriteOp(p.firstElementAddress, blob), mem', pid, p);
    WrittenCopies(mem, pid, p, blob);
    StretchKept(mem, mem', p.firstElementAddress, p.firstElementAddress + FirstLen(pid), SwapAddress(pid), FirstLen(pid));
  }

  /** A torn write of one copy leaves the other alone. */
  lemma TornCopies(mem: seq<byte>, pid: u16, p: Partition, blob: seq<byte>, mem': seq<byte>)
    requires Placed(mem, pid, p) && |blob| == FirstLen(pid)
    ensures Torn(mem, WriteOp(SwapAddress(pid), blob), mem', pid, p) ==>
              StartCopy(mem', pid, p) == StartCopy(mem, pid, p)
              && TornCopy(pid, p, SwapCopy(mem, pid, p), blob, SwapCopy(mem', pid, p))
    ensures Torn(mem, WriteOp(p.firstElementAddress, blob), mem', pid, p) ==>
              SwapCopy(mem', pid, p) == SwapCopy(mem, pid, p)
              && TornCopy(pid, p, StartCopy(mem, pid, p), blob, StartCopy(mem', pid, p))
  {
    hide Torn, TornCopy, StartCopy, SwapCopy, HeaderLen, SwapAddress;
    if Torn(mem, WriteOp(SwapAddress(pid), blob), mem', pid, p) {
      TornSwap(mem, pid, p, blob, mem');
    }
    if Torn(mem, WriteOp(p.firstElementAddress, blob), mem', pid, p) {
      TornStart(mem, pid, p, blob, mem');
    }
  }

  /** Wherever a renewal is cut, the copies are in one of the stages. */
  lemma CutStages(mem: seq<byte>, pid: u16, p: Partition, pre: seq<WriteOp>, backup: seq<WriteOp>, blob: seq<byte>,
                  post: seq<WriteOp>, mem': seq<byte>)
    requires Renewal(mem, pid, p, pre, backup, blob, post)
    requires AllFit(|mem|, RenewalWrites(p, pre, backup, blob, post))
    requires Cut(mem, RenewalWrites(p, pre, backup, blob, post), mem', pid, p)
    ensures |mem'| == |mem|
    ensures Stage(pid, p, StartCopy(mem, pid, p), SwapCopy(mem, pid, p), blob, StartCopy(mem', pid, p), SwapCopy(mem', pid, p))
  {
    RenewalFits(mem, pid, p, pre, backup, blob, post);
    hide AllBeside, Cut, AllFit, TornCopy, StartCopy, SwapCopy, HeaderLen, Placed, Apply, SwapAddress;
    var head := [WriteOp(p.firstElementAddress, blob)];
    CutSplit(mem, pre + backup + head, post, mem', pid, p);
    if Cut(mem, pre + backup + head, mem', pid, p) {
      CutSplit(mem, pre + backup, head, mem', pid, p);
      if Cut(mem, pre + backup, mem', pid, p) {
        CutBackup(mem, pid, p, pre, backup, blob, post, mem');
      } else {
        CutHead(mem, pid, p, pre, backup, blob, post, mem');
      }
    } else {
      CutRest(mem, pid, p, pre, backup, blob, post, mem');
    }
  }

  lemma CutBackup(mem: seq<byte>, pid: u16, p: Partition, pre: seq<WriteOp>, backup: seq<WriteOp>, blob: seq<byte>,
                  post: seq<WriteOp>, mem': seq<byte>)
    requires Renewal(mem, pid, p, pre, backup, blob, post) && AllFit(|mem|, pre + backup)
    requires Cut(mem, pre + backup, mem', pid, p)
    ensures |mem'| == |mem|
    ensures StartCopy(mem', pid, p) == StartCopy(mem, pid, p)
    ensures TornCopy(pid, p, SwapCopy(mem, pid, p), blob, SwapCopy(mem', pid, p))
  {
    RenewalFits(mem, pid, p, pre, backup, blob, post);
    CutSplit(mem, pre, backup, mem', pid, p);
    hide AllBeside, HeaderLen, Torn, StartCopy, SwapCopy;
    if Cut(mem, pre, mem', pid, p) {
      CutBeside(mem, pre, mem', pid, p);
    } else {
      var m := Apply(mem, pre);
      ApplyIsCut(mem, pre, pid, p);
      CutBeside(mem, pre, m, pid, p);
      if backup != [] {
        CutOfOne(m, backup[0], mem', pid, p);
        WrittenCopies(m, pid, p, blob);
        TornCopies(m, pid, p, blob, mem');
      }
    }
  }

  /** Once the backup is complete, the copy in the swap page is the new one. */
  lemma BackedUp(mem: seq<byte>, pid: u16, p: Partition, pre: seq<WriteOp>, backup: seq<WriteOp>, blob: seq<byte>,
                 post: seq<WriteOp>)
    requires Renewal(mem, pid, p, pre, backup, blob, post) && AllFit(|mem|, pre + backup)
    ensures var m := Apply(mem, pre + backup);
            StartCopy(m, pid, p) == StartCopy(mem, pid, p) && SwapCopy(m, pid, p) == blob
  {
    RenewalFits(mem, pid, p, pre, backup, blob, post);
    var m := Apply(mem, pre);
    ApplyIsCut(mem, pre, pid, p);
    CutBeside(mem, pre, m, pid, p);
    ApplyConcat(mem, pre, backup);
    WrittenCopies(m, pid, p, blob);
    hide AllBeside, HeaderLen, StartCopy, SwapCopy;
    if backup != [] {
      assert Apply(Write(m, SwapAddress(pid), blob), backup[1..]) == Write(m, SwapAddress(pid), blob);
    }
  }

  lemma CutHead(mem: seq<byte>, pid: u16, p: Partition, pre: seq<WriteOp>, backup: seq<WriteOp>, blob: seq<byte>,
                post: seq<WriteOp>, mem': seq<byte>)
    requires Renewal(mem, pid, p, pre, backup, blob, post) && AllFit(|mem|, pre + backup)
    requires AllFit(|mem|, [WriteOp(p.firstElementAddress, blob)])
    requires Cut(Apply(mem, pre + backup), [WriteOp(p.firstElementAddress, blob)], mem', pid, p)
    ensures |mem'| == |mem|
    ensures TornCopy(pid, p, StartCopy(mem, pid, p), blob, StartCopy(mem', pid, p))
    ensures SwapCopy(mem', pid, p) == blob
  {
    BackedUp(mem, pid, p, pre, backup, blob, post);
    var m := Apply(mem, pre + backup);
    hide AllBeside, HeaderLen, StartCopy, SwapCopy, Apply, Torn;
    CutOfOne(m, WriteOp(p.firstElementAddress, blob), mem', pid, p);
    WrittenCopies(m, pid, p, blob);
    TornCopies(m, pid, p, blob, mem');
  }

  lemma CutRest(mem: seq<byte>, pid: u16, p: Partition, pre: seq<WriteOp>, backup: seq<WriteOp>, blob: seq<byte>,
                post: seq<WriteOp>, mem': seq<byte>)
    requires Renewal(mem, pid, p, pre, backup, blob, post)
    requires AllFit(|mem|, pre + backup + [WriteOp(p.firstElementAddress, blob)])
    requires Cut(Apply(mem, pre + backup + [WriteOp(p.firstElementAddress, blob)]), post, mem', pid, p)
    ensures |mem'| == |mem| && StartCopy(mem', pid, p) == blob && SwapCopy(mem', pid, p) == blob
  {
    RenewalFits(mem, pid, p, pre, backup, blob, post);
    BackedUp(mem, pid, p, pre, backup, blob, post);
    var m := Apply(mem, pre + backup);
    hide AllBeside, HeaderLen, StartCopy, SwapCopy, Apply, Cut;
    ApplySnoc(mem, pre + backup, WriteOp(p.firstElementAddress, blob));
    WrittenCopies(m, pid, p, blob);
    CutBeside(Write(m, p.firstElementAddress, blob), post, mem', pid, p);
  }

  /** A renewal that is not cut leaves two new copies. */
  lemma CompleteRenewal(mem: seq<byte>, pid: u16, p: Partition, pre: seq<WriteOp>, backup: seq<WriteOp>, blob: seq<byte>,
                        post: seq<WriteOp>)
    requires Renewal(mem, pid, p, pre, backup, blob, post)
    requires AllFit(|mem|, RenewalWrites(p, pre, backup, blob, post))
    ensures var after := Apply(mem, RenewalWrites(p, pre, backup, blob, post));
            StartCopy(after, pid, p) == blob && SwapCopy(after, pid, p) == blob
  {
    RenewalFits(mem, pid, p, pre, backup, blob, post);
    hide Cut, HeaderLen, AllFit, Apply, AllBeside, SwapCopy, StartCopy;
    var most := pre + backup + [WriteOp(p.firstElementAddress, blob)];
    var m := Apply(mem, most);
    ApplyConcat(mem, most, post);
    ApplyIsCut(m, post, pid, p);
    CutRest(mem, pid, p, pre, backup, blob, post, Apply(m, post));
  }

  /** Two copies in a stage of a renewal: what is found is the old header or the new one. */
  lemma StageFinds(pid: u16, p: Partition, s0: seq<byte>, w0: seq<byte>, blob: seq<byte>, s: seq<byte>, w: seq<byte>)
    requires |s0| == |w0| == |blob| == |s| == |w| == FirstLen(pid)
    requires Stage(pid, p, s0, w0, blob, s, w)
    requires Judge(pid, p, s0) == BadCrc ==> !Judge(pid, p, w0).Good?
    requires !Judge(pid, p, blob).Foreign?
    ensures var f := FindIn(Judge(pid, p, s), Judge(pid, p, w));
            || f == FindIn(Judge(pid, p, s0), Judge(pid, p, w0))
            || f == FindIn(Judge(pid, p, blob), Judge(pid, p, blob))
  {
    hide Judge, HeaderLen;
  }

  /**
   * Wherever the supply fails during a renewal, the header found afterwards is the one found before it, or the one
   * found after it.
   */
  lemma CutRenewal(mem: seq<byte>, pid: u16, p: Partition, pre: seq<WriteOp>, backup: seq<WriteOp>, blob: seq<byte>,
                   post: seq<WriteOp>, mem': seq<byte>)
    requires Renewal(mem, pid, p, pre, backup, blob, post)
    requires var ws := RenewalWrites(p, pre, backup, blob, post);
             AllFit(|mem|, ws) && Cut(mem, ws, mem', pid, p)
    requires Judge(pid, p, StartCopy(mem, pid, p)) == BadCrc ==> !Judge(pid, p, SwapCopy(mem, pid, p)).Good?
    requires !Judge(pid, p, blob).Foreign?
    ensures |mem'| == |mem|
    ensures var after := Apply(mem, RenewalWrites(p, pre, backup, blob, post));
      && StartCopy(after, pid, p) == blob && SwapCopy(after, pid, p) == blob
      && FindFirst(mem', pid, p) in {FindFirst(mem, pid, p), FindFirst(after, pid, p)}
  {
    hide Judge, Cut, Stage, HeaderLen, AllFit, Apply;
    CutStages(mem, pid, p, pre, backup, blob, post, mem');
    StageFinds(pid, p, StartCopy(mem, pid, p), SwapCopy(mem, pid, p), blob, StartCopy(mem', pid, p), SwapCopy(mem', pid, p));
    CompleteRenewal(mem, pid, p, pre, backup, blob, post);
  }

  // ---- a RAM record in order ----

  /** The record agrees with the two copies: it knows of a first element exactly if the start copy is good. */
  predicate InOrder(pid: u16, p: Partition, s: seq<byte>, w: seq<byte>)
    requires |s| == |w| == FirstLen(pid)
  {
    match Judge(pid, p, s)
    case Good(m, h) => p.hasFirstElement && m == p.metadata
    case Foreign => !p.hasFirstElement
    case BadCrc => !p.hasFirstElement && !Judge(pid, p, w).Good?
  }

  /** What holds of a registered partition in every run, power cuts and all. */
  predicate Orderly(mem: seq<byte>, pid: u16, p: Partition) {
    && Registered(mem, pid, p) && Placed(mem, pid, p)
    && InOrder(pid, p, StartCopy(mem, pid, p), SwapCopy(mem, pid, p))
    && (p.latestElementAddress == p.firstElementAddress
        || p.firstElementAddress + FirstLen(pid) <= p.latestElementAddress < 0x1_0000_0000)
  }

  lemma OrderlyIsStable(mem: seq<byte>, pid: u16, p: Partition)
    requires Orderly(mem, pid, p)
    ensures Stable(mem, pid, p)
    ensures p.hasFirstElement <==> ReadFirst(mem, pid, p).ret == Success
    ensures !p.hasFirstElement <==> ReadFirst(mem, pid, p).ret == NotFound
  {
    hide Judge, HeaderLen, SwapAddress, Registered;
  }

  /** A record found by one request is found by every other one for the same partition. */
  lemma OrderlyFind(mem: seq<byte>, pid: u16, p: Partition, q: Partition)
    requires Orderly(mem, pid, p) && SameRequest(pid, p, q)
    ensures Placed(mem, pid, q)
    ensures StartCopy(mem, pid, q) == StartCopy(mem, pid, p) && SwapCopy(mem, pid, q) == SwapCopy(mem, pid, p)
    ensures FindFirst(mem, pid, q) == FindFirst(mem, pid, p)
    ensures FindFirst(mem, pid, q).Found? <==> p.hasFirstElement
    ensures Judge(pid, q, StartCopy(mem, pid, q)) == BadCrc ==> !Judge(pid, q, SwapCopy(mem, pid, q)).Good?
  {
    hide Judge, HeaderLen, SwapAddress, Registered;
    SameVerdict(pid, p, q, StartCopy(mem, pid, p));
    SameVerdict(pid, p, q, SwapCopy(mem, pid, p));
  }

  // ---- stores ----

  lemma OrderlyPlace(mem: seq<byte>, pid: u16, p: Partition, data: seq<byte>, len: u16)
    requires Orderly(mem, pid, p) && EffectiveLen(pid, p, len) <= |data|
    ensures var e := StoredElem(pid, p, data, len);
      e.address == p.firstElementAddress
      || (p.firstElementAddress + FirstLen(pid) <= e.address && p.hasFirstElement)
  {
    hide Judge, HeaderLen, SwapAddress, Registered, InOrder, Placed;
  }

  lemma ClearIsBeside(mem: seq<byte>, pid: u16, p: Partition, e: Elem, data: seq<byte>)
    requires Registered(mem, pid, p)
    requires e.address == p.firstElementAddress || p.firstElementAddress + FirstLen(pid) <= e.address
    ensures AllBeside(ClearOf(mem, pid, p, e), pid, p)
    ensures AllBeside(StoreOp(e.address + FullHeaderLen(pid, p.firstElementAddress, e.address), data), pid, p)
  {
    RegisteredIsPlaced(mem, pid, p);
    hide NoNext, Registered, HeaderLen, SwapAddress;
  }

  lemma SwapBeside(mem: seq<byte>, ws: seq<WriteOp>, pid: u16, p: Partition, blob: seq<byte>)
    requires Placed(mem, pid, p) && AllFit(|mem|, ws) && AllBeside(ws, pid, p) && |blob| == FirstLen(pid)
    requires Holds(Apply(mem, ws), SwapAddress(pid), blob)
    ensures SwapCopy(mem, pid, p) == blob
  {
    hide AllBeside, HeaderLen;
    ApplyIsCut(mem, ws, pid, p);
    CutBeside(mem, ws, Apply(mem, ws), pid, p);
  }

  /** The writes of a store of `e`, and the record afterwards. */
  function Commit(g: Geometry, mem: seq<byte>, pid: u16, p: Partition, it: Iterator, place: Place, e: Elem): (r: Outcome)
    requires Committing(g, mem, pid, p, place, e)
    ensures AllFit(|mem|, r.writes)
  {
    hide NoNext, ClearOf, CommitElement;
    CommitElement(g, mem, pid, p, it, place, e.data, [], ClearOf(mem, pid, p, e))
  }

  /** A store that succeeds gets as far as its writes. */
  lemma StoreCommits(g: Geometry, mem: seq<byte>, pid: u16, p: Partition, it: Iterator, data: seq<byte>, len: u16)
    requires CanStore(g, mem, pid, p, data, len) && Orderly(mem, pid, p)
    requires StoreElement(g, mem, pid, p, it, data, len).ret == Success
    ensures var e := StoredElem(pid, p, data, len);
            var r := StoreElement(g, mem, pid, p, it, data, len);
      && Committing(g, mem, pid, p, Placement(pid, p, |e.data|), e)
      && r == Commit(g, mem, pid, p, r.iter, Placement(pid, p, |e.data|), e)
  {
    OrderlyIsStable(mem, pid, p);
    OrderlyPlace(mem, pid, p, data, len);
    hide StoreElement, NoNext, InOrder, Placement, Stable, ClearOf, FullHeaderLen, CommitElement, Registered, Placed, AllFit;
    StoreUnfolds(g, mem, pid, p, it, data, len);
  }

  /** A store at the start backs its header up, unless the swap page holds it already. */
  lemma StartBackup(g: Geometry, mem: seq<byte>, pid: u16, p: Partition, it: Iterator, place: Place, e: Elem, bytes: seq<byte>)
    returns (backup: seq<WriteOp>)
    requires Committing(g, mem, pid, p, place, e) && e.address == p.firstElementAddress && Placed(mem, pid, p)
    requires bytes == HeadBytes(pid, p, place, e.data) && |bytes| == FirstLen(pid)
    ensures Commit(g, mem, pid, p, it, place, e).writes == StoreWrites(ClearOf(mem, pid, p, e), backup, e.address, bytes, e.data)
    ensures backup == [WriteOp(SwapAddress(pid), bytes)] || (backup == [] && SwapCopy(mem, pid, p) == bytes)
  {
    var clear := ClearOf(mem, pid, p, e);
    ClearIsBeside(mem, pid, p, e, e.data);
    hide NoNext, HeadBytes, ClearOf, FullHeaderLen, AllBeside, Apply, CommitElement, Placed, HeaderLen, StoreWrites;
    backup := CommitIsWrites(g, mem, pid, p, it, place, e);
    if backup == [] {
      assert clear + backup == clear;
      SwapBeside(mem, clear, pid, p, bytes);
    }
  }

  lemma CommittingFits(g: Geometry, mem: seq<byte>, pid: u16, p: Partition, place: Place, e: Elem)
    requires Committing(g, mem, pid, p, place, e)
    ensures Registered(mem, pid, p) && AllFit(|mem|, ClearOf(mem, pid, p, e)) && |e.data| < 0x1_0000
    ensures place.address == e.address
    ensures AllFit(|mem|, StoreOp(e.address + FullHeaderLen(pid, p.firstElementAddress, e.address), e.data))
  {
    hide NoNext, ClearOf, Readable;
  }

  /** The writes of a store at the start are a renewal with these parts. */
  predicate Renews(g: Geometry, mem: seq<byte>, pid: u16, p: Partition, it: Iterator, place: Place, e: Elem,
                   backup: seq<WriteOp>, post: seq<WriteOp>)
    requires Committing(g, mem, pid, p, place, e)
  {
    hide NoNext, ClearOf, Readable, Registered, HeaderLen;
    var clear, blob := ClearOf(mem, pid, p, e), HeadBytes(pid, p, place, e.data);
    && |blob| == FirstLen(pid) && Renewal(mem, pid, p, clear, backup, blob, post)
    && Commit(g, mem, pid, p, it, place, e).writes == RenewalWrites(p, clear, backup, blob, post)
  }

  lemma RenewsByParts(g: Geometry, mem: seq<byte>, pid: u16, p: Partition, it: Iterator, place: Place, e: Elem,
                      backup: seq<WriteOp>, post: seq<WriteOp>)
    requires Committing(g, mem, pid, p, place, e) && e.address == p.firstElementAddress && Placed(mem, pid, p)
    requires |e.data| < 0x1_0000 && place.address == e.address
    requires AllFit(|mem|, ClearOf(mem, pid, p, e)) && AllBeside(ClearOf(mem, pid, p, e), pid, p)
    requires post == StoreOp(e.address + FullHeaderLen(pid, p.firstElementAddress, e.address), e.data)
    requires AllFit(|mem|, post) && AllBeside(post, pid, p)
    requires var bytes := HeadBytes(pid, p, place, e.data);
      && Commit(g, mem, pid, p, it, place, e).writes == StoreWrites(ClearOf(mem, pid, p, e), backup, e.address, bytes, e.data)
      && (backup == [WriteOp(SwapAddress(pid), bytes)] || (backup == [] && SwapCopy(mem, pid, p) == bytes))
    ensures Renews(g, mem, pid, p, it, place, e, backup, post)
  {
    hide AllFit, AllBeside, ClearOf, HeadBytes, HeaderLen, SwapAddress, SwapCopy, Committing, Commit, Placed, StoreOp;
  }

  /** A store at the partition start renews the two copies. */
  lemma CommitRenews(g: Geometry, mem: seq<byte>, pid: u16, p: Partition, it: Iterator, place: Place, e: Elem)
    returns (backup: seq<WriteOp>, post: seq<WriteOp>)
    requires Committing(g, mem, pid, p, place, e) && e.address == p.firstElementAddress
    ensures Renews(g, mem, pid, p, it, place, e, backup, post)
  {
    var clear, bytes := ClearOf(mem, pid, p, e), HeadBytes(pid, p, place, e.data);
    hide *;
    CommittingFits(g, mem, pid, p, place, e);
    RegisteredIsPlaced(mem, pid, p);
    ClearIsBeside(mem, pid, p, e, e.data);
    post := StoreOp(e.address + FullHeaderLen(pid, p.firstElementAddress, e.address), e.data);
    backup := StartBackup(g, mem, pid, p, it, place, e, bytes);
    RenewsByParts(g, mem, pid, p, it, place, e, backup, post);
  }

  /** A store behind the start makes no backup. */
  lemma AppendWrites(g: Geometry, mem: seq<byte>, pid: u16, p: Partition, it: Iterator, place: Place, e: Elem, bytes: seq<byte>)
    requires Committing(g, mem, pid, p, place, e) && e.address != p.firstElementAddress
    requires |e.data| < 0x1_0000 && bytes == HeadBytes(pid, p, place, e.data)
    ensures Commit(g, mem, pid, p, it, place, e).writes == StoreWrites(ClearOf(mem, pid, p, e), [], e.address, bytes, e.data)
  {
    hide NoNext, HeadBytes, ClearOf, CommitElement, HeaderLen, StoreWrites, Apply, Holds, AllFit, Within, Registered, Readable;
    var backup := CommitIsWrites(g, mem, pid, p, it, place, e);
  }

  lemma BesideParts(pid: u16, p: Partition, clear: seq<WriteOp>, address: nat, bytes: seq<byte>, data: seq<byte>)
    requires AllBeside(clear, pid, p) && Beside(WriteOp(address, bytes), pid, p)
    requires AllBeside(StoreOp(address + |bytes|, data), pid, p)
    ensures AllBeside(StoreWrites(clear, [], address, bytes, data), pid, p)
  {
    hide Beside, StoreOp;
  }

  /** A store behind the latest element leaves both copies alone. */
  lemma CommitSpares(g: Geometry, mem: seq<byte>, pid: u16, p: Partition, it: Iterator, place: Place, e: Elem)
    requires Committing(g, mem, pid, p, place, e) && p.firstElementAddress + FirstLen(pid) <= e.address
    ensures AllBeside(Commit(g, mem, pid, p, it, place, e).writes, pid, p)
  {
    hide Committing, Commit, HeadBytes, ClearOf, AllBeside, HeaderLen, Registered, Placed, Beside, StoreWrites, StoreOp;
    CommittingFits(g, mem, pid, p, place, e);
    var bytes := HeadBytes(pid, p, place, e.data);
    RegisteredIsPlaced(mem, pid, p);
    ClearIsBeside(mem, pid, p, e, e.data);
    BesideBehind(mem, pid, p, WriteOp(e.address, bytes));
    AppendWrites(g, mem, pid, p, it, place, e, bytes);
    BesideParts(pid, p, ClearOf(mem, pid, p, e), e.address, bytes, e.data);
  }

  lemma BesideBehind(mem: seq<byte>, pid: u16, p: Partition, w: WriteOp)
    requires Placed(mem, pid, p) && p.firstElementAddress + FirstLen(pid) <= w.address
    ensures Beside(w, pid, p)
  {
  }

  /** The bytes a store writes at the start are a good copy, for every record of the same request. */
  lemma NewBlobIsGood(pid: u16, p: Partition, q: Partition, place: Place, data: seq<byte>)
    requires |data| < 0x1_0000 && place.address == p.firstElementAddress < 0x1_0000_0000
    requires p.latestElementAddress < 0x1_0000_0000 && p.metadata.partitionSize < 0x1_0000_0000
    requires SameRequest(pid, p, q) && p.metadata.partitionId == pid
    requires !IsDynamic(pid) ==> |data| == p.metadata.firstElementLen
    ensures Judge(pid, q, HeadBytes(pid, p, place, data))
         == Good(WithHeader(pid, p, place, data).metadata, Kept(pid, NewHeader(place, data)))
  {
    hide Judge, FirstBlob, BlobCrc, Checksum, HeaderLen;
    var h := NewHeader(place, data);
    var m := NewMetadata(pid, p, h, |data|);
    SealedIsGood(pid, q, m, h);
  }

  /** The record after a store at the start. */
  lemma RenewedInOrder(pid: u16, p: Partition, place: Place, data: seq<byte>, q: Partition)
    requires |data| < 0x1_0000 && place.address == p.firstElementAddress < 0x1_0000_0000
    requires p.latestElementAddress < 0x1_0000_0000 && p.metadata.partitionSize < 0x1_0000_0000
    requires p.metadata.partitionId == pid
    requires !IsDynamic(pid) ==> |data| == p.metadata.firstElementLen
    requires q.metadata == WithHeader(pid, p, place, data).metadata && q.hasFirstElement
    requires q.firstElementAddress == p.firstElementAddress
    ensures SameRequest(pid, p, q)
    ensures var blob := HeadBytes(pid, p, place, data); InOrder(pid, q, blob, blob)
  {
    assert SameRequest(pid, p, q);
    NewBlobIsGood(pid, p, q, place, data);
    hide Judge, HeadBytes, WithHeader;
  }

  /** The record after a store. */
  lemma CommitRecordInOrder(g: Geometry, mem: seq<byte>, pid: u16, p: Partition, it: Iterator, place: Place, e: Elem)
    requires Committing(g, mem, pid, p, place, e)
    ensures var r := Commit(g, mem, pid, p, it, place, e);
      && r.part == WithHeader(pid, p, place, e.data).(
                     latestElementAddress := e.address, latestRecordId := e.id, latestElementLen := |e.data|,
                     hasFirstElement := true)
      && (forall m: seq<byte> | |m| == |mem| :: Registered(m, pid, r.part))
      && SameRequest(pid, p, r.part) && e.address < 0x1_0000_0000
  {
    hide ClearOf, CommitBackup, HeadBytes, StoreWrites, HeaderLen;
  }

  predicate InReach(pid: u16, p: Partition) {
    && p.firstElementAddress < 0x1_0000_0000 && p.latestElementAddress < 0x1_0000_0000
    && p.metadata.partitionId == pid && p.metadata.partitionSize < 0x1_0000_0000
  }

  lemma OrderlyInReach(mem: seq<byte>, pid: u16, p: Partition)
    requires Orderly(mem, pid, p)
    ensures InReach(pid, p)
  {
    hide HeaderLen, InOrder, Placed;
  }

  /** A completed store at the start leaves the record in order. */
  lemma StartKeepsOrder(g: Geometry, mem: seq<byte>, pid: u16, p: Partition, it: Iterator, place: Place, e: Elem)
    requires Committing(g, mem, pid, p, place, e) && Orderly(mem, pid, p) && e.address == p.firstElementAddress
    ensures var r := Commit(g, mem, pid, p, it, place, e); Orderly(Apply(mem, r.writes), pid, r.part)
  {
    var r := Commit(g, mem, pid, p, it, place, e);
    var mem' := Apply(mem, r.writes);
    OrderlyInReach(mem, pid, p);
    RegisteredIsPlaced(mem, pid, p);
    SamePlace(mem, mem', pid, p);
    CommitRecordInOrder(g, mem, pid, p, it, place, e);
    hide Commit, Apply, Registered, Placed, ClearOf, HeadBytes, Renewal, InOrder, HeaderLen, SwapAddress, WithHeader;
    var backup, post := CommitRenews(g, mem, pid, p, it, place, e);
    RecordMetadata(pid, p, place, e.data);
    RenewedInOrder(pid, p, place, e.data, r.part);
    CompleteRenewal(mem, pid, p, ClearOf(mem, pid, p, e), backup, HeadBytes(pid, p, place, e.data), post);
    PlacedAlike(mem', pid, p, r.part);
    hide Committing;
  }

  lemma RecordMetadata(pid: u16, p: Partition, place: Place, data: seq<byte>)
    requires |data| < 0x1_0000
    ensures WithHeader(pid, p, place, data).firstElementAddress == p.firstElementAddress
  {
  }

  lemma PlacedAlike(mem: seq<byte>, pid: u16, p: Partition, q: Partition)
    requires Placed(mem, pid, p) && q.firstElementAddress == p.firstElementAddress
    ensures Placed(mem, pid, q)
    ensures StartCopy(mem, pid, q) == StartCopy(mem, pid, p) && SwapCopy(mem, pid, q) == SwapCopy(mem, pid, p)
  {
  }

  /** A completed store behind the latest element leaves the record in order. */
  lemma AppendKeepsOrder(g: Geometry, mem: seq<byte>, pid: u16, p: Partition, it: Iterator, place: Place, e: Elem)
    requires Committing(g, mem, pid, p, place, e) && Orderly(mem, pid, p)
    requires p.firstElementAddress + FirstLen(pid) <= e.address && p.hasFirstElement
    ensures var r := Commit(g, mem, pid, p, it, place, e); Orderly(Apply(mem, r.writes), pid, r.part)
  {
    var r := Commit(g, mem, pid, p, it, place, e);
    var mem' := Apply(mem, r.writes);
    CommitRecordInOrder(g, mem, pid, p, it, place, e);
    RegisteredIsPlaced(mem, pid, p);
    SamePlace(mem, mem', pid, p);
    assert r.part.metadata == p.metadata;
    CommitSpares(g, mem, pid, p, it, place, e);
    hide Commit, Committing, Apply, Registered, Placed, ClearOf, Judge, HeaderLen, SwapAddress, WithHeader, AllBeside, Cut;
    ApplyIsCut(mem, r.writes, pid, p);
    CutBeside(mem, r.writes, mem', pid, p);
    SameVerdict(pid, p, r.part, StartCopy(mem, pid, p));
    PlacedAlike(mem', pid, p, r.part);
    hide StartCopy, SwapCopy;
  }

  /** A store, completed or refused, leaves the record in order. */
  lemma StoreKeepsOrder(g: Geometry, mem: seq<byte>, pid: u16, p: Partition, it: Iterator, data: seq<byte>, len: u16)
    requires CanStore(g, mem, pid, p, data, len) && Orderly(mem, pid, p)
    ensures var r := StoreElement(g, mem, pid, p, it, data, len);
      && Orderly(Apply(mem, r.writes), pid, r.part) && SameRequest(pid, p, r.part)
      && (p.hasFirstElement || r.ret == Success ==> r.part.hasFirstElement)
  {
    var e := StoredElem(pid, p, data, len);
    var r := StoreElement(g, mem, pid, p, it, data, len);
    OrderlyPlace(mem, pid, p, data, len);
    hide StoreElement, Orderly, Commit, ClearOf, Apply, HeaderLen, Registered, StoredElem, Committing, SameRequest;
    if r.ret == Success {
      StoreCommits(g, mem, pid, p, it, data, len);
      var place := Placement(pid, p, |e.data|);
      CommitRecordInOrder(g, mem, pid, p, r.iter, place, e);
      if e.address == p.firstElementAddress {
        StartKeepsOrder(g, mem, pid, p, r.iter, place, e);
      } else {
        AppendKeepsOrder(g, mem, pid, p, r.iter, place, e);
      }
    } else {
      OrderlyIsStable(mem, pid, p);
      StoreUnfolds(g, mem, pid, p, it, data, len);
      ApplyNothing(mem);
    }
  }

  // ---- cutting a store ----

  /** What is found afterwards is what was found before the writes `ws`, or what they would have left. */
  ghost predicate OldOrNew(mem: seq<byte>, ws: seq<WriteOp>, mem': seq<byte>, pid: u16, q: Partition)
    requires AllFit(|mem|, ws) && Placed(mem, pid, q)
  {
    |mem'| == |mem| && FindFirst(mem', pid, q) in {FindFirst(mem, pid, q), FindFirst(Apply(mem, ws), pid, q)}
  }

  lemma RenewsForRequest(g: Geometry, mem: seq<byte>, pid: u16, p: Partition, it: Iterator, place: Place, e: Elem,
                         backup: seq<WriteOp>, post: seq<WriteOp>, q: Partition)
    requires Committing(g, mem, pid, p, place, e) && Renews(g, mem, pid, p, it, place, e, backup, post)
    requires q.firstElementAddress == p.firstElementAddress
    ensures |e.data| < 0x1_0000 && place.address == e.address && Placed(mem, pid, q)
    ensures var clear, blob := ClearOf(mem, pid, p, e), HeadBytes(pid, p, place, e.data);
      && |blob| == FirstLen(pid) && Renewal(mem, pid, q, clear, backup, blob, post)
      && Commit(g, mem, pid, p, it, place, e).writes == RenewalWrites(q, clear, backup, blob, post)
  {
    hide ClearOf, HeadBytes, NoNext, Registered, Readable, AllFit, ByteUnits, TotalSize;
  }

  lemma StaticLen(g: Geometry, mem: seq<byte>, pid: u16, p: Partition, place: Place, e: Elem)
    requires Committing(g, mem, pid, p, place, e)
    ensures !IsDynamic(pid) ==> |e.data| == p.metadata.firstElementLen
  {
    hide ClearOf, NoNext, Registered, Readable, AllFit, ByteUnits, TotalSize;
  }

  lemma CutStart(g: Geometry, mem: seq<byte>, pid: u16, p: Partition, it: Iterator, place: Place, e: Elem,
                 mem': seq<byte>, q: Partition)
    requires Committing(g, mem, pid, p, place, e) && Orderly(mem, pid, p) && e.address == p.firstElementAddress
    requires SameRequest(pid, p, q) && Placed(mem, pid, q) && Cut(mem, Commit(g, mem, pid, p, it, place, e).writes, mem', pid, q)
    ensures OldOrNew(mem, Commit(g, mem, pid, p, it, place, e).writes, mem', pid, q)
  {
    hide *;
    OrderlyInReach(mem, pid, p);
    OrderlyFind(mem, pid, p, q);
    var backup, post := CommitRenews(g, mem, pid, p, it, place, e);
    RequestPlace(pid, p, q, e);
    RenewsForRequest(g, mem, pid, p, it, place, e, backup, post, q);
    StaticLen(g, mem, pid, p, place, e);
    CutNewBlob(mem, pid, p, q, place, e.data, ClearOf(mem, pid, p, e), backup, post, mem');
  }

  lemma RequestPlace(pid: u16, p: Partition, q: Partition, e: Elem)
    requires SameRequest(pid, p, q)
    ensures q.firstElementAddress == p.firstElementAddress
  {
  }

  lemma CutNewBlob(mem: seq<byte>, pid: u16, p: Partition, q: Partition, place: Place, data: seq<byte>,
                   pre: seq<WriteOp>, backup: seq<WriteOp>, post: seq<WriteOp>, mem': seq<byte>)
    requires |data| < 0x1_0000 && place.address == p.firstElementAddress && InReach(pid, p) && SameRequest(pid, p, q)
    requires !IsDynamic(pid) ==> |data| == p.metadata.firstElementLen
    requires Placed(mem, pid, q)
    requires Judge(pid, q, StartCopy(mem, pid, q)) == BadCrc ==> !Judge(pid, q, SwapCopy(mem, pid, q)).Good?
    requires var blob := HeadBytes(pid, p, place, data);
      && |blob| == FirstLen(pid) && Renewal(mem, pid, q, pre, backup, blob, post)
      && (var ws := RenewalWrites(q, pre, backup, blob, post);
          AllFit(|mem|, ws) && Cut(mem, ws, mem', pid, q))
    ensures OldOrNew(mem, RenewalWrites(q, pre, backup, HeadBytes(pid, p, place, data), post), mem', pid, q)
  {
    var blob := HeadBytes(pid, p, place, data);
    hide HeadBytes, Renewal, RenewalWrites, AllFit, Cut, FindFirst, SameRequest, WithHeader, Kept, StartCopy, SwapCopy, Apply;
    NewBlobIsGood(pid, p, q, place, data);
    CutRenewal(mem, pid, q, pre, backup, blob, post, mem');
  }

  lemma CutAppend(g: Geometry, mem: seq<byte>, pid: u16, p: Partition, it: Iterator, place: Place, e: Elem,
                  mem': seq<byte>, q: Partition)
    requires Committing(g, mem, pid, p, place, e) && Orderly(mem, pid, p)
    requires p.firstElementAddress + FirstLen(pid) <= e.address
    requires SameRequest(pid, p, q) && Placed(mem, pid, q) && Cut(mem, Commit(g, mem, pid, p, it, place, e).writes, mem', pid, q)
    ensures OldOrNew(mem, Commit(g, mem, pid, p, it, place, e).writes, mem', pid, q)
  {
    var ws := Commit(g, mem, pid, p, it, place, e).writes;
    hide *;
    RequestPlace(pid, p, q, e);
    CommitSpares(g, mem, pid, p, it, place, e);
    BesideAlike(ws, pid, p, q);
    CutBeside(mem, ws, mem', pid, q);
    SameFind(mem, ws, mem', pid, q);
  }

  lemma BesideAlike(ws: seq<WriteOp>, pid: u16, p: Partition, q: Partition)
    requires AllBeside(ws, pid, p) && q.firstElementAddress == p.firstElementAddress
    ensures AllBeside(ws, pid, q)
  {
  }

  lemma SameFind(mem: seq<byte>, ws: seq<WriteOp>, mem': seq<byte>, pid: u16, q: Partition)
    requires AllFit(|mem|, ws) && Placed(mem, pid, q) && SameCopies(mem, mem', pid, q)
    ensures OldOrNew(mem, ws, mem', pid, q)
  {
    hide StartCopy, SwapCopy, Judge;
  }

  lemma CutStoreFinds(g: Geometry, mem: seq<byte>, pid: u16, p: Partition, it: Iterator, data: seq<byte>, len: u16,
                      mem': seq<byte>, q: Partition)
    requires CanStore(g, mem, pid, p, data, len) && Orderly(mem, pid, p) && SameRequest(pid, p, q)
    requires Placed(mem, pid, q) && Cut(mem, StoreElement(g, mem, pid, p, it, data, len).writes, mem', pid, q)
    ensures OldOrNew(mem, StoreElement(g, mem, pid, p, it, data, len).writes, mem', pid, q)
  {
    var r := StoreElement(g, mem, pid, p, it, data, len);
    if r.ret == Success {
      hide *;
      var e := StoredElem(pid, p, data, len);
      OrderlyPlace(mem, pid, p, data, len);
      StoreCommits(g, mem, pid, p, it, data, len);
      var place := Placement(pid, p, |e.data|);
      if e.address == p.firstElementAddress {
        CutStart(g, mem, pid, p, r.iter, place, e, mem', q);
      } else {
        CutAppend(g, mem, pid, p, r.iter, place, e, mem', q);
      }
    } else {
      hide StoreElement, Placed, FindFirst, CanStore, Orderly, Torn;
      RefusedWritesNothing(g, mem, pid, p, it, data, len);
    }
  }

  /**
   * Wherever the supply fails during a store, the next registration finds the first header there was before, or the
   * one the store was writing; so once there is a first header, there is always one.
   */
  lemma CutStore(g: Geometry, mem: seq<byte>, pid: u16, p: Partition, it: Iterator, data: seq<byte>, len: u16,
                 mem': seq<byte>, q: Partition)
    requires CanStore(g, mem, pid, p, data, len) && Orderly(mem, pid, p) && SameRequest(pid, p, q)
    requires Placed(mem, pid, q) && Cut(mem, StoreElement(g, mem, pid, p, it, data, len).writes, mem', pid, q)
    ensures OldOrNew(mem, StoreElement(g, mem, pid, p, it, data, len).writes, mem', pid, q)
    ensures FindFirst(mem, pid, q).Found? ==> FindFirst(mem', pid, q).Found?
  {
    var r := StoreElement(g, mem, pid, p, it, data, len);
    CutStoreFinds(g, mem, pid, p, it, data, len, mem', q);
    hide StoreElement, Orderly, Apply, CanStore, SameRequest, FindFirst, Placed, Cut;
    StoreKeepsOrder(g, mem, pid, p, it, data, len);
    RequestTransitive(pid, p, q, r.part);
    OrderlyFind(mem, pid, p, q);
    OrderlyFind(Apply(mem, r.writes), pid, r.part, q);
  }

  lemma RefusedWritesNothing(g: Geometry, mem: seq<byte>, pid: u16, p: Partition, it: Iterator, data: seq<byte>, len: u16)
    requires CanStore(g, mem, pid, p, data, len) && Orderly(mem, pid, p)
    requires StoreElement(g, mem, pid, p, it, data, len).ret != Success
    ensures StoreElement(g, mem, pid, p, it, data, len).writes == []
    ensures StoreElement(g, mem, pid, p, it, data, len).part == p
  {
    OrderlyPlace(mem, pid, p, data, len);
    OrderlyIsStable(mem, pid, p);
    hide StoreElement, Orderly, Stable, StoredElem, CanStore;
    StoreUnfolds(g, mem, pid, p, it, data, len);
  }

  lemma RequestTransitive(pid: u16, p: Partition, q: Partition, r: Partition)
    requires SameRequest(pid, p, q) && SameRequest(pid, p, r)
    ensures SameRequest(pid, r, q)
  {
  }
}
