/** A static partition that reaches to the end of storage: its last slot is never written, and it never begins a second lap. */
module FsFrozen {
  import opened Bytes
  import opened Units
  import opened FsTypes
  import opened FsSpec
  import opened FsLog
  import opened FsStore
  import opened FsKeep
  import opened FsRing
  import opened FsHistory
  import opened FsSystem
  import opened FsStanding
  import opened FsPerform
  import opened FsSucceeds
  import opened FsFills
  import opened FsRuns

  /** Partition `i` is static, and storage ends less than a header behind its last slot. */
  predicate NoRoomBehind(s: System, i: nat)
    requires i < |s.parts|
  {
    var p := s.parts[i];
    !IsDynamic(p.metadata.partitionId) && !RoomBehind(|s.mem|, p.metadata.partitionId, p)
  }

  /** And it holds fewer payloads than it has slots. */
  predicate NotFull(s: System, hists: seq<seq<seq<byte>>>, i: nat) {
    i < |s.parts| && i < |hists| && NoRoomBehind(s, i) && |hists[i]| < Slots(s.parts[i].metadata.partitionId, s.parts[i])
  }

  lemma AlikeStays(p: Partition, q: Partition, size: nat)
    requires Alike(p, q) && !IsDynamic(p.metadata.partitionId)
    ensures q.metadata.partitionId == p.metadata.partitionId
    ensures Slots(q.metadata.partitionId, q) == Slots(p.metadata.partitionId, p)
    ensures RoomBehind(size, q.metadata.partitionId, q) <==> RoomBehind(size, p.metadata.partitionId, p)
  {
    ShapeKeepsRoom(size, p.metadata.partitionId, p, q);
    hide Slots, RoomBehind;
  }

  /** A store into a partition that is not full, but for its last slot, is refused. */
  lemma StoreStaysBelow(g: Geometry, mem: seq<byte>, pid: u16, p: Partition, it: Iterator, c: Command, log: Log, hist: seq<seq<byte>>)
    requires ByteUnits(g) && TotalSize(g) == |mem| && Registered(mem, pid, p) && Serves(pid, p, c)
    requires PartHolds(mem, pid, p, log, hist) && !IsDynamic(pid) && !RoomBehind(|mem|, pid, p) && |hist| < Slots(pid, p)
    ensures |Remember(pid, p, c, Perform(g, mem, pid, p, it, c).ret, hist)| < Slots(pid, p)
  {
    hide PartHolds, StoreElement, ClearPartition, IteratorInit, IteratorNext, IteratorPrevious, IteratorRead, Slots, RoomBehind,
      Registered, TotalSize;
    if c.Store? && |hist| + 1 == Slots(pid, p) {
      LastSlotRefused(g, mem, pid, p, it, c.data, c.len, log, hist);
    }
  }

  /** What an operation leaves of the system, and of the histories. */
  lemma OnUnfolds(g: Geometry, s: System, reqs: seq<Request>, hists: seq<seq<seq<byte>>>, pid: u16, c: Command)
    requires Sized(g, s) && Possible(g, s, On(pid, c)) && |hists| == s.number
    ensures var k, p := Index(pid), PartOf(s, pid);
            var r := Perform(g, s.mem, pid, p, IterOf(s, pid), c);
            var s' := Execute(g, s, reqs, On(pid, c));
      && k < s.number <= |s.parts| && pid == p.metadata.partitionId && p == s.parts[k] && s'.number == s.number
      && |s'.mem| == |s.mem| && s'.parts == s.parts[k := r.part]
      && Recall(g, s, On(pid, c), hists) == hists[k := Remember(pid, p, c, r.ret, hists[k])]
  {
    hide Perform, Remember, Registered, Serves, TotalSize, Regular;
  }

  lemma PutStaysBelow(s: System, s': System, hists: seq<seq<seq<byte>>>, k: nat, q: Partition, hist: seq<seq<byte>>, i: nat)
    requires NotFull(s, hists, i) && k < |s.parts| && k < |hists| && |s'.mem| == |s.mem| && s'.parts == s.parts[k := q]
    requires Alike(s.parts[k], q)
    requires k == i ==> |hist| < Slots(s.parts[i].metadata.partitionId, s.parts[i])
    ensures NotFull(s', hists[k := hist], i)
  {
    hide Alike, Slots, RoomBehind;
    if k == i {
      AlikeStays(s.parts[i], q, |s.mem|);
    }
  }

  lemma NotFullMeans(s: System, hists: seq<seq<seq<byte>>>, i: nat)
    requires NotFull(s, hists, i)
    ensures var p := s.parts[i];
            var pid := p.metadata.partitionId;
            !IsDynamic(pid) && !RoomBehind(|s.mem|, pid, p) && |hists[i]| < Slots(pid, p)
  {
    hide Slots, RoomBehind;
  }

  lemma InvMeans(g: Geometry, s: System, reqs: seq<Request>, logs: seq<Log>, hists: seq<seq<seq<byte>>>, i: nat)
    requires SysInv(g, s, reqs, logs, hists) && i < s.number
    ensures ByteUnits(g) && Regular(g) && Sized(g, s) && TotalSize(g) == |s.mem| && |s.iters| == MAX_PARTITIONS
    ensures s.number == |logs| == |hists| <= |s.parts| == MAX_PARTITIONS
    ensures PartHolds(s.mem, s.parts[i].metadata.partitionId, s.parts[i], logs[i], hists[i])
  {
    assert InvAt(g, s, reqs, logs, hists, i);
    hide PartHolds, Planned, Allocated, TotalSize, IsBoundary;
  }

  lemma PossibleMeans(g: Geometry, s: System, pid: u16, c: Command)
    requires Sized(g, s) && Possible(g, s, On(pid, c))
    ensures Index(pid) < s.number <= MAX_PARTITIONS && Registered(s.mem, pid, PartOf(s, pid)) && Serves(pid, PartOf(s, pid), c)
  {
    hide Registered, Serves;
  }

  lemma OnStaysBelow(g: Geometry, s: System, reqs: seq<Request>, logs: seq<Log>, hists: seq<seq<seq<byte>>>, pid: u16, c: Command,
                     i: nat)
    requires SysInv(g, s, reqs, logs, hists) && Possible(g, s, On(pid, c)) && i < s.number && NotFull(s, hists, i)
    ensures NotFull(Execute(g, s, reqs, On(pid, c)), Recall(g, s, On(pid, c), hists), i)
  {
    hide *;
    InvMeans(g, s, reqs, logs, hists, i);
    PossibleMeans(g, s, pid, c);
    InvMeans(g, s, reqs, logs, hists, Index(pid));
    var k, p, it := Index(pid), PartOf(s, pid), IterOf(s, pid);
    var r := Perform(g, s.mem, pid, p, it, c);
    OnUnfolds(g, s, reqs, hists, pid, c);
    var log' := OnKeeps(g, s, reqs, logs, hists, pid, c);
    KeptUnfolds(s.mem, pid, p, it, logs[k], r, log', Remember(pid, p, c, r.ret, hists[k]));
    if k == i {
      NotFullMeans(s, hists, i);
      StoreStaysBelow(g, s.mem, pid, p, it, c, logs[k], hists[k]);
    }
    PutStaysBelow(s, Execute(g, s, reqs, On(pid, c)), hists, k, r.part, Remember(pid, p, c, r.ret, hists[k]), i);
  }

  lemma RestartStaysBelow(s: System, t: System, hists: seq<seq<seq<byte>>>, i: nat)
    requires SameContents(s, t) && i < s.number && |t.mem| == |s.mem| && NotFull(s, hists, i)
    ensures NotFull(t, hists, i)
  {
    hide Alike, Slots, RoomBehind;
    assert Alike(s.parts[i], t.parts[i]);
    AlikeStays(s.parts[i], t.parts[i], |s.mem|);
  }

  lemma ActionStaysBelow(g: Geometry, s: System, reqs: seq<Request>, logs: seq<Log>, hists: seq<seq<seq<byte>>>, a: Action, i: nat)
    returns (logs': seq<Log>)
    requires SysInv(g, s, reqs, logs, hists) && Possible(g, s, a) && i < s.number && NotFull(s, hists, i)
    ensures SysInv(g, Execute(g, s, reqs, a), reqs, logs', Recall(g, s, a, hists))
    ensures i < Execute(g, s, reqs, a).number && NotFull(Execute(g, s, reqs, a), Recall(g, s, a, hists), i)
  {
    logs' := ActionKeeps(g, s, reqs, logs, hists, a);
    match a {
      case On(pid, c) =>
        hide SysInv, NotFull, Perform, Registered, Serves, TotalSize, Regular;
        OnStaysBelow(g, s, reqs, logs, hists, pid, c, i);
      case Restart(parts, iters) =>
        hide SysInv, Rebooted, NotFull, Regular, TotalSize;
        RestartKeeps(g, s, reqs, logs, hists, parts, iters);
        RestartStaysBelow(s, Rebooted(g, s, reqs, parts, iters), hists, i);
    }
  }

  /**
   * If storage ends less than a header behind the last slot of a static partition, then in no run whatsoever does the
   * partition ever hold as many payloads as it has slots: the ring never closes.
   */
  lemma {:induction false} NeverFull(g: Geometry, s: System, reqs: seq<Request>, logs: seq<Log>, hists: seq<seq<seq<byte>>>,
                                     actions: seq<Action>, t: System, hists': seq<seq<seq<byte>>>, i: nat)
    requires SysInv(g, s, reqs, logs, hists) && Sized(g, s) && Leads(g, reqs, s, hists, actions, t, hists')
    requires i < s.number && NotFull(s, hists, i)
    ensures NotFull(t, hists', i)
    decreases |actions|
  {
    hide SysInv, Sized, Possible, Execute, Recall, NotFull;
    if actions != [] {
      var next := ActionStaysBelow(g, s, reqs, logs, hists, actions[0], i);
      NeverFull(g, Execute(g, s, reqs, actions[0]), reqs, next, Recall(g, s, actions[0], hists), actions[1..], t, hists', i);
    }
  }

  /** A partition that takes what is left of storage, without a header's worth to spare, is such a partition. */
  lemma LastPartitionHasNoRoom(g: Geometry, s: System, reqs: seq<Request>, logs: seq<Log>, hists: seq<seq<seq<byte>>>, i: nat)
    requires SysInv(g, s, reqs, logs, hists) && i < s.number && !reqs[i].dynamic && PartEnd(s.parts[i]) == |s.mem|
    requires var p := s.parts[i];
             var pid := p.metadata.partitionId;
             (p.metadata.partitionSize - METADATA_SIZE) % SlotSize(pid, p) < HeaderLen(pid)
    ensures NoRoomBehind(s, i)
  {
    var p := s.parts[i];
    var pid := p.metadata.partitionId;
    hide *;
    InvMeans(g, s, reqs, logs, hists, i);
    HandleKind(g, s, reqs, logs, hists, i);
    SlotsInPart(s.mem, pid, p, logs[i], hists[i]);
    EndTooNear(|s.mem|, pid, p, s, i);
  }

  lemma EndTooNear(size: nat, pid: u16, p: Partition, s: System, i: nat)
    requires i < |s.parts| && p == s.parts[i] && pid == p.metadata.partitionId && size == |s.mem| == PartEnd(p)
    requires !IsDynamic(pid) && METADATA_SIZE <= p.metadata.partitionSize && Slots(pid, p) > 0
    requires (p.metadata.partitionSize - METADATA_SIZE) % SlotSize(pid, p) < HeaderLen(pid)
    ensures NoRoomBehind(s, i)
  {
    hide HeaderLen, SlotSize, Slots, SlotAddress;
    LastSlotEnds(pid, p);
  }

  lemma SlotsInPart(mem: seq<byte>, pid: u16, p: Partition, log: Log, hist: seq<seq<byte>>)
    requires PartHolds(mem, pid, p, log, hist)
    ensures !IsDynamic(pid) ==> Slots(pid, p) > 0
    ensures METADATA_SIZE <= p.metadata.partitionSize
  {
    PartIsStable(mem, pid, p, log);
    hide PartInv, RingInv, HoldsLap, Slots, Stable, EndsWith, HeaderLen;
  }

  lemma HandleKind(g: Geometry, s: System, reqs: seq<Request>, logs: seq<Log>, hists: seq<seq<seq<byte>>>, i: nat)
    requires SysInv(g, s, reqs, logs, hists) && i < s.number
    ensures i < |reqs| && i < |s.parts| && (IsDynamic(s.parts[i].metadata.partitionId) <==> reqs[i].dynamic)
  {
    assert InvAt(g, s, reqs, logs, hists, i);
    hide PartHolds, Layout, AvailableSize, UnitLimits, ByteUnits, FirstLen;
  }

  lemma LastSlotEnds(pid: u16, p: Partition)
    requires METADATA_SIZE <= p.metadata.partitionSize
    ensures SlotAddress(pid, p, Slots(pid, p)) <= PartEnd(p)
    ensures Slots(pid, p) > 0 ==>
              SlotAddress(pid, p, Slots(pid, p)) + (p.metadata.partitionSize - METADATA_SIZE) % SlotSize(pid, p) == PartEnd(p)
  {
    hide SlotSize;
  }
}
