/** Runs of the whole filesystem: any operations on any partitions, and restarts, keep what each partition holds. */
module FsRuns {
  import opened Bytes
  import opened Units
  import opened FsTypes
  import opened FsSpec
  import opened FsLog
  import opened FsStore
  import opened FsKeep
  import opened FsClear
  import opened FsWalk
  import opened FsRing
  import opened FsRingWalk
  import opened FsRingExact
  import opened FsRecovery
  import opened FsIterator
  import opened FsHistory
  import opened FsSystem
  import opened FsPerform
  import opened FsStanding

  // ---- all partitions ----

  /** Where partition `i` begins: behind the swap page, or behind the partition before. */
  function StartOf(g: Geometry, parts: seq<Partition>, i: nat): nat
    requires Regular(g) && i <= |parts|
  {
    if i > 0 then PartEnd(parts[i - 1])
    else match UnitLimits(g, 0, SWAP_PAGE_SIZE)
      case Limits(start, end) => end + 1
      case Invalid => 0
  }

  /** The record is the one that request `i` leads to. */
  predicate Planned(g: Geometry, parts: seq<Partition>, reqs: seq<Request>, i: nat)
    requires Regular(g) && i < |parts| && i < |reqs| && i < MAX_PARTITIONS
  {
    var p, req := parts[i], reqs[i];
    && p.metadata.partitionId == HandleOf(i, req)
    && p.firstElementAddress == StartOf(g, parts, i)
    && AvailableSize(g, p.firstElementAddress, req.size) == Available(p.metadata.partitionSize)
    && FirstLen(p.metadata.partitionId) + ElementLen(req) <= p.metadata.partitionSize
    && (!req.dynamic ==> p.metadata.firstElementLen == req.elementLen > 0)
  }

  /** What the partitions hold: the payloads `hists[i]`, as far as there is room. */
  ghost predicate SysInv(g: Geometry, s: System, reqs: seq<Request>, logs: seq<Log>, hists: seq<seq<seq<byte>>>) {
    && ByteUnits(g) && Layout(g, s) && |reqs| == |logs| == |hists| == s.number
    && s.nextFree == StartOf(g, s.parts, s.number)
    && forall i :: 0 <= i < s.number ==> InvAt(g, s, reqs, logs, hists, i)
  }

  predicate InvAt(g: Geometry, s: System, reqs: seq<Request>, logs: seq<Log>, hists: seq<seq<seq<byte>>>, i: nat)
    requires Regular(g) && i < s.number <= MAX_PARTITIONS == |s.parts| && |reqs| == |logs| == |hists| == s.number
  {
    && Planned(g, s.parts, reqs, i)
    && PartHolds(s.mem, s.parts[i].metadata.partitionId, s.parts[i], logs[i], hists[i])
  }

  // ---- one partition's operation leaves the others alone ----

  lemma OthersKeep(mem: seq<byte>, mem': seq<byte>, pid: u16, p: Partition, pid': u16, q: Partition, log: Log)
    requires PartInv(mem, pid', q, log) && ChangedOwn(mem, mem', pid, p)
    requires Index(pid) < MAX_PARTITIONS && Index(pid) != Index(pid')
    requires PartEnd(p) <= q.firstElementAddress || PartEnd(q) <= p.firstElementAddress
    requires SWAP_PAGE_SIZE <= p.firstElementAddress
    ensures PartInv(mem', pid', q, log)
  {
    PartIsStable(mem, pid', q, log);
    assert SWAP_PAGE_SIZE <= q.firstElementAddress && PartEnd(q) <= |mem| == |mem'| && Index(pid') < MAX_PARTITIONS;
    SwapSlotsApart(pid, pid');
    SwapSlotsApart(pid', pid);
    assert Agree(mem, mem', q.firstElementAddress, PartEnd(q)) && Agree(mem, mem', SwapAddress(pid'), SwapAddress(pid') + SWAP_SLOT_SIZE);
    hide LogInv, EmptyInv, ChangedOwn, Agree, Registered, HeaderLen, SwapAddress, Stable;
    if log.chain == [] {
      EmptyFrame(mem, mem', pid', q);
    } else {
      LogFrame(mem, mem', pid', q, log);
    }
  }

  lemma LayoutApart(g: Geometry, s: System, i: nat, j: nat)
    requires Layout(g, s) && i < s.number && j < s.number && i != j
    ensures PartEnd(s.parts[i]) <= s.parts[j].firstElementAddress || PartEnd(s.parts[j]) <= s.parts[i].firstElementAddress
    ensures SWAP_PAGE_SIZE <= s.parts[i].firstElementAddress
  {
    if i < j {
      InOrder(g, s, i, j);
    } else {
      InOrder(g, s, j, i);
    }
    assert Allocated(g, s, i);
  }

  // ---- actions ----

  /** An operation on one partition, or a restart with arbitrary contents of RAM. */
  datatype Action = On(pid: u16, command: Command) | Restart(parts: seq<Partition>, iters: seq<Iterator>)

  predicate Possible(g: Geometry, s: System, a: Action)
    requires Sized(g, s)
  {
    match a
    case On(pid, c) =>
      && Handle(s, pid) && s.number <= MAX_PARTITIONS
      && Registered(s.mem, pid, PartOf(s, pid)) && Serves(pid, PartOf(s, pid), c)
    case Restart(parts, iters) => |parts| == |iters| == MAX_PARTITIONS
  }

  /** Registering a list of partitions, the first one first. */
  function RegisterAll(g: Geometry, s: System, reqs: seq<Request>): (r: System)
    requires Sized(g, s)
    ensures Sized(g, r)
  {
    hide Sized;
    if reqs == [] then s
    else Register(g, RegisterAll(g, s, reqs[..|reqs| - 1]), reqs[|reqs| - 1]).sys
  }

  /** Registrations, however many and whatever they ask for, keep the layout. */
  lemma {:induction false} RegisterAllKeepsLayout(g: Geometry, s: System, reqs: seq<Request>)
    requires Layout(g, s)
    ensures Layout(g, RegisterAll(g, s, reqs))
    decreases |reqs|
  {
    hide Register, Layout, Sized;
    LayoutIsSized(g, s);
    if reqs != [] {
      RegisterAllKeepsLayout(g, s, reqs[..|reqs| - 1]);
      RegisterKeepsLayout(g, RegisterAll(g, s, reqs[..|reqs| - 1]), reqs[|reqs| - 1]);
    }
  }

  lemma LayoutIsSized(g: Geometry, s: System)
    requires Layout(g, s)
    ensures Sized(g, s)
  {
  }

  /** So after a reset, any registrations hand out disjoint runs of whole units behind the swap page. */
  lemma AllocationFromReset(g: Geometry, s: System, reqs: seq<Request>)
    requires Sized(g, s) && Reset(g, s).0 == Success
    ensures Layout(g, RegisterAll(g, Reset(g, s).1, reqs))
  {
    ResetLaysOut(g, s);
    var s0 := Reset(g, s).1;
    hide Sized, Layout, Register, Reset;
    RegisterAllKeepsLayout(g, s0, reqs);
  }

  function Rebooted(g: Geometry, s: System, reqs: seq<Request>, parts: seq<Partition>, iters: seq<Iterator>): (r: System)
    requires Sized(g, s) && |parts| == |iters| == MAX_PARTITIONS
    ensures Sized(g, r)
  {
    RegisterAll(g, Reset(g, s.(parts := parts, iters := iters)).1, reqs)
  }

  function Execute(g: Geometry, s: System, reqs: seq<Request>, a: Action): (r: System)
    requires Sized(g, s) && Possible(g, s, a)
    ensures Sized(g, r)
  {
    hide Perform, Serves, Registered, Rebooted, Regular, TotalSize;
    match a
    case On(pid, c) => After(s, pid, Perform(g, s.mem, pid, PartOf(s, pid), IterOf(s, pid), c))
    case Restart(parts, iters) => Rebooted(g, s, reqs, parts, iters)
  }

  function Recall(g: Geometry, s: System, a: Action, hists: seq<seq<seq<byte>>>): seq<seq<seq<byte>>>
    requires Sized(g, s) && Possible(g, s, a) && |hists| == s.number
  {
    hide Perform, Serves, Registered, Regular, TotalSize;
    match a
    case On(pid, c) =>
      var p := PartOf(s, pid);
      var ret := Perform(g, s.mem, pid, p, IterOf(s, pid), c).ret;
      hists[Index(pid) := Remember(pid, p, c, ret, hists[Index(pid)])]
    case Restart(_, _) => hists
  }

  // ---- an operation keeps the invariant ----

  /** Place, size and identity, which neither operations nor restarts change. */
  predicate Alike(p: Partition, q: Partition) { SameShape(p.metadata.partitionId, p, q) }

  predicate AllAlike(parts: seq<Partition>, parts': seq<Partition>, n: nat) {
    n <= |parts| == |parts'| && forall i :: 0 <= i < n ==> Alike(parts[i], parts'[i])
  }

  lemma PlannedAlike(g: Geometry, parts: seq<Partition>, parts': seq<Partition>, reqs: seq<Request>, i: nat, n: nat)
    requires Regular(g) && i < n <= |parts| && i < |reqs| && i < MAX_PARTITIONS && AllAlike(parts, parts', n)
    requires Planned(g, parts, reqs, i)
    ensures Planned(g, parts', reqs, i)
  {
    hide AvailableSize, UnitLimits, HeaderLen, Regular;
    assert Alike(parts[i], parts'[i]);
    if i > 0 {
      assert Alike(parts[i - 1], parts'[i - 1]);
    }
  }

  lemma LayoutAlike(g: Geometry, s: System, s': System)
    requires Layout(g, s) && Sized(g, s') && s'.number == s.number && s'.nextFree == s.nextFree && |s'.mem| == |s.mem|
    requires AllAlike(s.parts, s'.parts, s.number)
    ensures Layout(g, s')
  {
    hide IsBoundary, Sized, HeaderLen;
    forall i | 0 <= i < s.number ensures Allocated(g, s', i) {
      assert Allocated(g, s, i) && Alike(s.parts[i], s'.parts[i]);
      if i + 1 < s.number {
        assert Alike(s.parts[i + 1], s'.parts[i + 1]);
      }
    }
  }

  lemma StartAlike(g: Geometry, parts: seq<Partition>, parts': seq<Partition>, n: nat)
    requires Regular(g) && AllAlike(parts, parts', n)
    ensures StartOf(g, parts', n) == StartOf(g, parts, n)
  {
    if n > 0 {
      assert Alike(parts[n - 1], parts'[n - 1]);
    }
  }

  /** After an operation on partition `k`, partition `i` holds what it held. */
  lemma OtherAfter(g: Geometry, s: System, mem': seq<byte>, reqs: seq<Request>, logs: seq<Log>, hists: seq<seq<seq<byte>>>,
                   k: nat, i: nat)
    requires SysInv(g, s, reqs, logs, hists) && i < s.number && k < s.number && i != k
    requires ChangedOwn(s.mem, mem', s.parts[k].metadata.partitionId, s.parts[k])
    ensures PartHolds(mem', s.parts[i].metadata.partitionId, s.parts[i], logs[i], hists[i])
  {
    assert InvAt(g, s, reqs, logs, hists, i) && InvAt(g, s, reqs, logs, hists, k);
    LayoutApart(g, s, k, i);
    hide Layout, PartInv, HistoryInv, ChangedOwn, ByteUnits, Planned;
    OthersKeep(s.mem, mem', s.parts[k].metadata.partitionId, s.parts[k], s.parts[i].metadata.partitionId, s.parts[i], logs[i]);
  }

  /** All that is left of the invariant if every record keeps its shape is what the partitions hold. */
  lemma InvFromParts(g: Geometry, s: System, s': System, reqs: seq<Request>, logs: seq<Log>, hists: seq<seq<seq<byte>>>,
                     logs': seq<Log>, hists': seq<seq<seq<byte>>>)
    requires SysInv(g, s, reqs, logs, hists)
    requires Sized(g, s') && s'.number == s.number && s'.nextFree == s.nextFree && |s'.mem| == |s.mem|
    requires AllAlike(s.parts, s'.parts, s.number) && |logs'| == |hists'| == s.number
    requires forall i :: 0 <= i < s.number ==>
               PartHolds(s'.mem, s'.parts[i].metadata.partitionId, s'.parts[i], logs'[i], hists'[i])
    ensures SysInv(g, s', reqs, logs', hists')
  {
    hide PartHolds, Allocated, IsBoundary, Planned, UnitLimits, Regular, TotalSize, Alike;
    assert Layout(g, s') by { LayoutAlike(g, s, s'); }
    StartAlike(g, s.parts, s'.parts, s.number);
    hide Layout, AllAlike;
    forall i | 0 <= i < s.number ensures InvAt(g, s', reqs, logs', hists', i) {
      assert InvAt(g, s, reqs, logs, hists, i);
      PlannedAlike(g, s.parts, s'.parts, reqs, i, s.number);
    }
  }

  /** The system after an operation on partition `k`. */
  predicate Becomes(s: System, k: nat, r: Outcome, s': System) {
    && k < |s.parts| == |s.iters| && AllFit(|s.mem|, r.writes)
    && s' == s.(mem := Apply(s.mem, r.writes), parts := s.parts[k := r.part], iters := s.iters[k := r.iter])
  }

  function Put<T>(s: seq<T>, k: nat, x: T): (r: seq<T>)
    ensures |r| == |s|
  {
    if k < |s| then s[k := x] else s
  }

  lemma BecomesAlike(g: Geometry, s: System, k: nat, r: Outcome, s': System)
    requires Sized(g, s) && Becomes(s, k, r, s') && Alike(s.parts[k], r.part) && s.number <= MAX_PARTITIONS
    ensures Sized(g, s') && AllAlike(s.parts, s'.parts, s.number)
  {
    hide Regular, TotalSize, Apply;
  }

  /** An operation that keeps what its partition holds keeps the invariant. */
  lemma AfterKeeps(g: Geometry, s: System, reqs: seq<Request>, logs: seq<Log>, hists: seq<seq<seq<byte>>>, k: nat, r: Outcome,
                   s': System, log': Log, hist': seq<seq<byte>>)
    requires SysInv(g, s, reqs, logs, hists) && Sized(g, s) && k < s.number <= MAX_PARTITIONS && Becomes(s, k, r, s')
    requires PartHolds(s'.mem, r.part.metadata.partitionId, r.part, log', hist')
    requires ChangedOwn(s.mem, s'.mem, s.parts[k].metadata.partitionId, s.parts[k]) && Alike(s.parts[k], r.part)
    ensures SysInv(g, s', reqs, Put(logs, k, log'), Put(hists, k, hist'))
  {
    hide PartHolds, ChangedOwn, Alike, AllAlike, Regular, TotalSize, Layout, InvAt, ByteUnits;
    BecomesAlike(g, s, k, r, s');
    forall i | 0 <= i < s.number
      ensures PartHolds(s'.mem, s'.parts[i].metadata.partitionId, s'.parts[i], Put(logs, k, log')[i], Put(hists, k, hist')[i])
    {
      if i != k {
        OtherAfter(g, s, s'.mem, reqs, logs, hists, k, i);
      }
    }
    InvFromParts(g, s, s', reqs, logs, hists, Put(logs, k, log'), Put(hists, k, hist'));
  }

  /** What an operation on a partition of a system does to this partition. */
  lemma PerformAt(g: Geometry, s: System, reqs: seq<Request>, logs: seq<Log>, hists: seq<seq<seq<byte>>>, pid: u16, c: Command)
    returns (log': Log)
    requires SysInv(g, s, reqs, logs, hists) && Possible(g, s, On(pid, c))
    ensures var p, it := PartOf(s, pid), IterOf(s, pid);
            var r := Perform(g, s.mem, pid, p, it, c);
      && Done(s.mem, pid, p, it, logs[Index(pid)], r, log', Remember(pid, p, c, r.ret, hists[Index(pid)]))
      && (c.Store? ==> Spared(pid, p, it, logs[Index(pid)], r, log'))
  {
    assert InvAt(g, s, reqs, logs, hists, Index(pid));
    hide PartHolds, Done, Spared, Perform, Remember, Registered, Serves, Layout, Planned;
    log' := PerformKeeps(g, s.mem, pid, PartOf(s, pid), IterOf(s, pid), c, logs[Index(pid)], hists[Index(pid)]);
  }

  lemma KeptUnfolds(mem: seq<byte>, pid: u16, p: Partition, it: Iterator, log: Log, r: Outcome, log': Log, hist': seq<seq<byte>>)
    requires AllFit(|mem|, r.writes) && Done(mem, pid, p, it, log, r, log', hist') && p.metadata.partitionId == pid
    ensures r.part.metadata.partitionId == pid && Alike(p, r.part)
    ensures PartHolds(Apply(mem, r.writes), pid, r.part, log', hist') && ChangedOwn(mem, Apply(mem, r.writes), pid, p)
  {
    hide PartHolds, ChangedOwn, Standing, Apply;
  }

  /** An operation keeps the invariant, and changes the log and the history of its own partition only. */
  lemma OnKeeps(g: Geometry, s: System, reqs: seq<Request>, logs: seq<Log>, hists: seq<seq<seq<byte>>>, pid: u16, c: Command)
    returns (log': Log)
    requires SysInv(g, s, reqs, logs, hists) && Possible(g, s, On(pid, c))
    ensures SysInv(g, Execute(g, s, reqs, On(pid, c)), reqs, Put(logs, Index(pid), log'), Recall(g, s, On(pid, c), hists))
    ensures var p, it := PartOf(s, pid), IterOf(s, pid);
            var r := Perform(g, s.mem, pid, p, it, c);
      && Done(s.mem, pid, p, it, logs[Index(pid)], r, log', Remember(pid, p, c, r.ret, hists[Index(pid)]))
      && (c.Store? ==> Spared(pid, p, it, logs[Index(pid)], r, log'))
  {
    var k, p, it := Index(pid), PartOf(s, pid), IterOf(s, pid);
    var r := Perform(g, s.mem, pid, p, it, c);
    var hist' := Remember(pid, p, c, r.ret, hists[k]);
    log' := PerformAt(g, s, reqs, logs, hists, pid, c);
    hide Perform, Remember, Registered, Serves, Done, Spared, PartHolds, ChangedOwn, InvAt, Layout, TotalSize, Regular, Alike;
    KeptUnfolds(s.mem, pid, p, it, logs[k], r, log', hist');
    AfterKeeps(g, s, reqs, logs, hists, k, r, Execute(g, s, reqs, On(pid, c)), log', hist');
  }

  // ---- restarting ----

  /** After `k` registrations: the first `k` partitions are back. */
  predicate BroughtBack(g: Geometry, s: System, logs: seq<Log>, hists: seq<seq<seq<byte>>>, t: System, k: nat)
    requires Regular(g)
  {
    && Sized(g, t) && t.mem == s.mem && t.number == k <= s.number <= MAX_PARTITIONS
    && |logs| == |hists| == s.number && |s.parts| == MAX_PARTITIONS
    && t.nextFree == StartOf(g, s.parts, k) && AllAlike(s.parts, t.parts, k)
    && (forall i :: 0 <= i < k ==> t.parts[i].hasFirstElement == s.parts[i].hasFirstElement)
    && forall i :: 0 <= i < k ==> PartHolds(t.mem, t.parts[i].metadata.partitionId, t.parts[i], logs[i], hists[i])
  }

  /** The record the next registration begins with asks for the partition that was there. */
  lemma NextRequest(g: Geometry, s: System, reqs: seq<Request>, t: System, k: nat)
    requires Regular(g) && k < s.number <= MAX_PARTITIONS == |s.parts| && |reqs| == s.number && Planned(g, s.parts, reqs, k)
    requires |t.parts| == MAX_PARTITIONS && t.number == k && t.nextFree == StartOf(g, s.parts, k)
    ensures var p, req := s.parts[k], reqs[k];
      && AskedAgain(p.metadata.partitionId, p, NewRecord(t, req, p.metadata.partitionSize))
      && p.metadata.partitionId == HandleOf(k, req)
      && AvailableSize(g, t.nextFree, req.size) == Available(p.metadata.partitionSize)
      && !(!req.dynamic && req.elementLen == 0)
      && FirstLen(HandleOf(k, req)) + ElementLen(req) <= p.metadata.partitionSize
      && t.nextFree + p.metadata.partitionSize == StartOf(g, s.parts, k + 1)
  {
    hide AvailableSize, UnitLimits, HeaderLen, Regular;
  }

  /** A registration that is not refused is what its scan of storage finds. */
  lemma RegisterUnfolds(g: Geometry, t: System, req: Request, size: nat)
    requires Sized(g, t) && t.number < MAX_PARTITIONS
    requires !(!req.dynamic && req.elementLen == 0)
    requires AvailableSize(g, t.nextFree, req.size) == Available(size)
    requires FirstLen(HandleOf(t.number, req)) + ElementLen(req) <= size
    requires var found := Scan(t.mem, HandleOf(t.number, req), NewRecord(t, req, size)); found.ret == Success && found.writes == []
    ensures var found := Scan(t.mem, HandleOf(t.number, req), NewRecord(t, req, size));
            Register(g, t, req)
            == Registration(
                 Success,
                 t.(parts := t.parts[t.number := found.part], number := t.number + 1, nextFree := t.nextFree + size),
                 HandleOf(t.number, req), size, [])
  {
    hide Scan, NewRecord, HandleOf, AvailableSize, UnitLimits, Regular, TotalSize, HeaderLen;
    ApplyNothing(t.mem);
    hide Apply;
  }

  /** What the next registration does. */
  lemma RegisterNext(g: Geometry, s: System, reqs: seq<Request>, log: Log, hist: seq<seq<byte>>, t: System, k: nat)
    returns (q: Partition)
    requires Regular(g) && k < s.number <= MAX_PARTITIONS == |s.parts| && |reqs| == s.number && Planned(g, s.parts, reqs, k)
    requires Sized(g, t) && t.mem == s.mem && t.number == k && t.nextFree == StartOf(g, s.parts, k)
    requires PartHolds(s.mem, s.parts[k].metadata.partitionId, s.parts[k], log, hist)
    ensures Register(g, t, reqs[k]).ret == Success && Register(g, t, reqs[k]).writes == []
    ensures Register(g, t, reqs[k]).sys == t.(parts := t.parts[k := q], number := k + 1, nextFree := StartOf(g, s.parts, k + 1))
    ensures PartHolds(s.mem, q.metadata.partitionId, q, log, hist) && Alike(s.parts[k], q)
    ensures q.hasFirstElement == s.parts[k].hasFirstElement
  {
    var p, req := s.parts[k], reqs[k];
    var pid := p.metadata.partitionId;
    var blank := NewRecord(t, req, p.metadata.partitionSize);
    var found := Scan(s.mem, pid, blank);
    q := found.part;
    hide *;
    SizedParts(g, t);
    NextRequest(g, s, reqs, t, k);
    RestartRecovers(s.mem, pid, p, log, hist, blank);
    AlikeFound(pid, p, found.part);
    RegisterUnfolds(g, t, req, p.metadata.partitionSize);
  }

  lemma SizedParts(g: Geometry, t: System)
    requires Sized(g, t)
    ensures |t.parts| == MAX_PARTITIONS
  {
  }

  lemma AlikeFound(pid: u16, p: Partition, q: Partition)
    requires pid == p.metadata.partitionId && SameRequest(pid, p, q)
    ensures Alike(p, q) && q.metadata.partitionId == pid
  {
  }

  lemma AlikeSnoc(parts: seq<Partition>, parts': seq<Partition>, k: nat, q: Partition)
    requires AllAlike(parts, parts', k) && k < |parts| && Alike(parts[k], q)
    ensures AllAlike(parts, parts'[k := q], k + 1)
  {
    hide Alike;
  }

  lemma BackAgain(g: Geometry, s: System, logs: seq<Log>, hists: seq<seq<seq<byte>>>, t: System, k: nat, q: Partition, t': System)
    requires Regular(g) && BroughtBack(g, s, logs, hists, t, k) && k < s.number
    requires Alike(s.parts[k], q) && PartHolds(s.mem, q.metadata.partitionId, q, logs[k], hists[k])
    requires q.hasFirstElement == s.parts[k].hasFirstElement
    requires t' == t.(parts := t.parts[k := q], number := k + 1, nextFree := StartOf(g, s.parts, k + 1))
    ensures BroughtBack(g, s, logs, hists, t', k + 1)
  {
    hide PartHolds, Alike, StartOf, Regular, TotalSize, AllAlike;
    AlikeSnoc(s.parts, t.parts, k, q);
  }

  lemma {:induction false} RegisteredAgain(g: Geometry, s: System, reqs: seq<Request>, logs: seq<Log>, hists: seq<seq<seq<byte>>>,
                                           s0: System, k: nat)
    requires SysInv(g, s, reqs, logs, hists) && k <= s.number
    requires BroughtBack(g, s, logs, hists, s0, 0)
    ensures BroughtBack(g, s, logs, hists, RegisterAll(g, s0, reqs[..k]), k)
    decreases k
  {
    hide BroughtBack, Register, Planned, PartHolds, StartOf;
    assert Sized(g, s0) by { BackIsSized(g, s, logs, hists, s0, 0); }
    if k > 0 {
      RegisteredAgain(g, s, reqs, logs, hists, s0, k - 1);
      var t := RegisterAll(g, s0, reqs[..k - 1]);
      assert reqs[..k][..k - 1] == reqs[..k - 1] && reqs[..k][k - 1] == reqs[k - 1];
      assert InvAt(g, s, reqs, logs, hists, k - 1);
      assert Regular(g) && |s.parts| == MAX_PARTITIONS >= s.number && |reqs| == s.number;
      hide SysInv, Sized, Regular, RegisterAll;
      BackIsSized(g, s, logs, hists, t, k - 1);
      var q := RegisterNext(g, s, reqs, logs[k - 1], hists[k - 1], t, k - 1);
      BackAgain(g, s, logs, hists, t, k - 1, q, Register(g, t, reqs[k - 1]).sys);
      LastRegistered(g, s0, reqs, k);
    } else {
      assert reqs[..0] == [];
    }
  }

  /** The partitions are where they were, and hold elements or not as before. */
  predicate SameContents(s: System, t: System) {
    && s.number == t.number && AllAlike(s.parts, t.parts, s.number)
    && forall i :: 0 <= i < s.number <= |s.parts| == |t.parts| ==> t.parts[i].hasFirstElement == s.parts[i].hasFirstElement
  }

  lemma {:induction false} RegisteringKeepsIterators(g: Geometry, s: System, reqs: seq<Request>)
    requires Sized(g, s)
    ensures RegisterAll(g, s, reqs).iters == s.iters
    decreases |reqs|
  {
    hide Sized;
    if reqs != [] {
      RegisteringKeepsIterators(g, s, reqs[..|reqs| - 1]);
      hide Register;
    }
  }

  lemma LastRegistered(g: Geometry, s0: System, reqs: seq<Request>, k: nat)
    requires Sized(g, s0) && 0 < k <= |reqs|
    ensures RegisterAll(g, s0, reqs[..k]) == Register(g, RegisterAll(g, s0, reqs[..k - 1]), reqs[k - 1]).sys
  {
    hide Register, Sized;
    assert reqs[..k][..k - 1] == reqs[..k - 1] && reqs[..k][k - 1] == reqs[k - 1];
  }

  lemma BackIsSized(g: Geometry, s: System, logs: seq<Log>, hists: seq<seq<seq<byte>>>, t: System, k: nat)
    requires Regular(g) && BroughtBack(g, s, logs, hists, t, k)
    ensures Sized(g, t) && t.mem == s.mem && t.number == k && t.nextFree == StartOf(g, s.parts, k)
  {
    hide PartHolds, StartOf, Regular, TotalSize;
  }

  /** A restart, whatever was in RAM, brings every partition back with all it held. */
  lemma RestartKeeps(g: Geometry, s: System, reqs: seq<Request>, logs: seq<Log>, hists: seq<seq<seq<byte>>>,
                     parts: seq<Partition>, iters: seq<Iterator>)
    requires SysInv(g, s, reqs, logs, hists) && |parts| == |iters| == MAX_PARTITIONS
    ensures SysInv(g, Rebooted(g, s, reqs, parts, iters), reqs, logs, hists)
    ensures var t := Rebooted(g, s, reqs, parts, iters); t.mem == s.mem && t.iters == iters && SameContents(s, t)
  {
    var s1 := s.(parts := parts, iters := iters);
    var s0 := Reset(g, s1).1;
    RegisteredAgain(g, s, reqs, logs, hists, s0, s.number);
    assert reqs[..s.number] == reqs;
    RegisteringKeepsIterators(g, s0, reqs);
    hide Reset, RegisterAll, PartHolds, StartOf, Layout, Regular, TotalSize, AllAlike, InvAt;
    InvFromParts(g, s, RegisterAll(g, s0, reqs), reqs, logs, hists, logs, hists);
  }

  // ---- runs ----

  /** The actions lead from `s` with history `hists` to `t` with history `hists'`. */
  ghost predicate Leads(g: Geometry, reqs: seq<Request>, s: System, hists: seq<seq<seq<byte>>>, actions: seq<Action>,
                        t: System, hists': seq<seq<seq<byte>>>)
    requires Sized(g, s)
    decreases |actions|
  {
    hide Sized, Possible, Execute, Recall;
    if actions == [] then t == s && hists' == hists
    else
      && |hists| == s.number && Possible(g, s, actions[0])
      && Leads(g, reqs, Execute(g, s, reqs, actions[0]), Recall(g, s, actions[0], hists), actions[1..], t, hists')
  }

  lemma ActionKeeps(g: Geometry, s: System, reqs: seq<Request>, logs: seq<Log>, hists: seq<seq<seq<byte>>>, a: Action)
    returns (logs': seq<Log>)
    requires SysInv(g, s, reqs, logs, hists) && Possible(g, s, a)
    ensures SysInv(g, Execute(g, s, reqs, a), reqs, logs', Recall(g, s, a, hists))
  {
    match a {
      case On(pid, c) =>
        var log' := OnKeeps(g, s, reqs, logs, hists, pid, c);
        logs' := Put(logs, Index(pid), log');
      case Restart(parts, iters) =>
        RestartKeeps(g, s, reqs, logs, hists, parts, iters);
        logs' := logs;
        hide SysInv, Rebooted;
    }
  }

  /** Whatever is done to the partitions, in whatever order, with restarts in between: each holds what it was given. */
  lemma {:induction false} RunsKeep(g: Geometry, s: System, reqs: seq<Request>, logs: seq<Log>, hists: seq<seq<seq<byte>>>,
                                    actions: seq<Action>, t: System, hists': seq<seq<seq<byte>>>)
    returns (logs': seq<Log>)
    requires SysInv(g, s, reqs, logs, hists) && Sized(g, s) && Leads(g, reqs, s, hists, actions, t, hists')
    ensures SysInv(g, t, reqs, logs', hists')
    decreases |actions|
  {
    hide SysInv, Sized, Possible, Execute, Recall;
    if actions == [] {
      logs' := logs;
    } else {
      var next := ActionKeeps(g, s, reqs, logs, hists, actions[0]);
      logs' := RunsKeep(g, Execute(g, s, reqs, actions[0]), reqs, next, Recall(g, s, actions[0], hists), actions[1..], t, hists');
    }
  }

  // ---- where runs begin ----

  /** After a reset there are no partitions. */
  lemma ResetHoldsNothing(g: Geometry, s: System)
    requires ByteUnits(g) && Sized(g, s) && Reset(g, s).0 == Success
    ensures SysInv(g, Reset(g, s).1, [], [], [])
  {
    ResetLaysOut(g, s);
    hide Layout, Sized;
  }

  /** A partition registered where storage holds no header of its own is empty. */
  lemma RegisterAddsEmpty(g: Geometry, s: System, reqs: seq<Request>, logs: seq<Log>, hists: seq<seq<seq<byte>>>, req: Request,
                          size: nat)
    requires SysInv(g, s, reqs, logs, hists) && Sized(g, s) && s.number < MAX_PARTITIONS
    requires req.dynamic || req.elementLen > 0
    requires AvailableSize(g, s.nextFree, req.size) == Available(size)
    requires FirstLen(HandleOf(s.number, req)) + ElementLen(req) <= size
    requires ReadFirst(s.mem, HandleOf(s.number, req), NewRecord(s, req, size)).ret == NotFound
    ensures var r := Register(g, s, req);
      && r.ret == Success && r.pid == HandleOf(s.number, req) && r.size == size && r.sys.mem == s.mem
      && SysInv(g, r.sys, reqs + [req], logs + [EMPTY_LOG], hists + [[]])
  {
    hide *;
    SystemIsLaidOut(g, s, reqs, logs, hists);
    var pid := HandleOf(s.number, req);
    var blank := NewRecord(s, req, size);
    NewRecordIs(s, req, size);
    NewIsRegistered(g, s, req, size);
    NewHoldsNothing(g, s.mem, pid, blank);
    RegisterUnfolds(g, s, req, size);
    NewIsPlanned(g, s, reqs, req, size);
    RegisterKeepsLayout(g, s, req);
    InvExtended(g, s, reqs, logs, hists, req, blank);
  }

  lemma SystemIsLaidOut(g: Geometry, s: System, reqs: seq<Request>, logs: seq<Log>, hists: seq<seq<seq<byte>>>)
    requires SysInv(g, s, reqs, logs, hists)
    ensures Layout(g, s) && Sized(g, s) && Regular(g) && s.number == |reqs| <= MAX_PARTITIONS && |s.parts| == MAX_PARTITIONS
    ensures s.nextFree == StartOf(g, s.parts, s.number)
  {
    hide Allocated, IsBoundary, TotalSize, InvAt, StartOf;
  }

  lemma NewRecordIs(s: System, req: Request, size: nat)
    requires s.number < MAX_PARTITIONS && |s.parts| == MAX_PARTITIONS
    ensures var blank := NewRecord(s, req, size);
      && blank.metadata.partitionId == HandleOf(s.number, req) && s.nextFree + size == PartEnd(blank)
      && !blank.hasFirstElement && blank.latestElementAddress == blank.firstElementAddress && blank.latestRecordId == 1
      && blank.metadata.firstElementLen == ElementLen(req) && blank.metadata.partitionSize == size
  {
    hide HandleOf;
  }

  lemma InvExtended(g: Geometry, s: System, reqs: seq<Request>, logs: seq<Log>, hists: seq<seq<seq<byte>>>, req: Request,
                    q: Partition)
    requires SysInv(g, s, reqs, logs, hists) && Sized(g, s) && s.number < MAX_PARTITIONS
    requires var t := s.(parts := s.parts[s.number := q], number := s.number + 1, nextFree := PartEnd(q));
             Layout(g, t) && Planned(g, t.parts, reqs + [req], s.number)
    requires PartHolds(s.mem, q.metadata.partitionId, q, EMPTY_LOG, [])
    ensures var t := s.(parts := s.parts[s.number := q], number := s.number + 1, nextFree := PartEnd(q));
            SysInv(g, t, reqs + [req], logs + [EMPTY_LOG], hists + [[]])
  {
    var t := s.(parts := s.parts[s.number := q], number := s.number + 1, nextFree := PartEnd(q));
    var reqs', logs', hists' := reqs + [req], logs + [EMPTY_LOG], hists + [[]];
    assert AllAlike(s.parts, t.parts, s.number);
    hide Layout, PartHolds, AllAlike, Planned, UnitLimits, TotalSize, Regular;
    forall i | 0 <= i < t.number ensures InvAt(g, t, reqs', logs', hists', i) {
      if i < s.number {
        assert InvAt(g, s, reqs, logs, hists, i);
        PlannedAlike(g, s.parts, t.parts, reqs, i, s.number);
        PlannedPrefix(g, t.parts, reqs, req, i);
      }
    }
  }

  lemma PlannedPrefix(g: Geometry, parts: seq<Partition>, reqs: seq<Request>, req: Request, i: nat)
    requires Regular(g) && i < |parts| && i < |reqs| && i < MAX_PARTITIONS && Planned(g, parts, reqs, i)
    ensures Planned(g, parts, reqs + [req], i)
  {
    assert (reqs + [req])[i] == reqs[i];
    hide AvailableSize, HandleOf, HeaderLen, StartOf;
  }

  lemma NewIsRegistered(g: Geometry, s: System, req: Request, size: nat)
    requires Layout(g, s) && s.number < MAX_PARTITIONS && AvailableSize(g, s.nextFree, req.size) == Available(size)
    requires FirstLen(HandleOf(s.number, req)) + ElementLen(req) <= size
    ensures Registered(s.mem, HandleOf(s.number, req), NewRecord(s, req, size))
  {
    AvailableIsWholeUnits(g, s.nextFree, req.size);
    hide IsBoundary, AvailableSize, HeaderLen, Allocated;
  }

  lemma NewHoldsNothing(g: Geometry, mem: seq<byte>, pid: u16, blank: Partition)
    requires Registered(mem, pid, blank) && !blank.hasFirstElement && ReadFirst(mem, pid, blank).ret == NotFound
    requires blank.latestElementAddress == blank.firstElementAddress && blank.latestRecordId == 1
    requires !IsDynamic(pid) ==> FirstLen(pid) + blank.metadata.firstElementLen <= blank.metadata.partitionSize
    ensures Scan(mem, pid, blank) == Scanned(Success, blank, [])
    ensures PartHolds(mem, pid, blank, EMPTY_LOG, [])
  {
    NoLap(pid, blank);
    hide HoldsLap;
    if !IsDynamic(pid) {
      RoomForOne(pid, blank);
    }
    hide ReadFirst, Registered, HeaderLen, Slots, FindLatest;
  }

  lemma RoomForOne(pid: u16, p: Partition)
    requires FirstLen(pid) + p.metadata.firstElementLen <= p.metadata.partitionSize
    ensures Slots(pid, p) > 0
  {
    hide HeaderLen;
    SlotFits(pid, p, 0);
    hide Slots;
  }

  lemma NewIsPlanned(g: Geometry, s: System, reqs: seq<Request>, req: Request, size: nat)
    requires Sized(g, s) && s.number == |reqs| < MAX_PARTITIONS && s.nextFree == StartOf(g, s.parts, s.number)
    requires req.dynamic || req.elementLen > 0
    requires AvailableSize(g, s.nextFree, req.size) == Available(size)
    requires FirstLen(HandleOf(s.number, req)) + ElementLen(req) <= size
    ensures Planned(g, s.parts[s.number := NewRecord(s, req, size)], reqs + [req], s.number)
  {
    hide AvailableSize, HandleOf, HeaderLen, UnitLimits;
  }

  // ---- what runs yield ----

  lemma HoldsInRun(g: Geometry, t: System, reqs: seq<Request>, logs: seq<Log>, hists: seq<seq<seq<byte>>>, i: nat)
    requires SysInv(g, t, reqs, logs, hists) && i < |reqs|
    ensures |hists| == |reqs| == t.number <= |t.parts| && t.number <= MAX_PARTITIONS && |logs| == |hists|
    ensures t.parts[i].metadata.partitionId == HandleOf(i, reqs[i])
    ensures PartHolds(t.mem, HandleOf(i, reqs[i]), t.parts[i], logs[i], hists[i])
  {
    assert InvAt(g, t, reqs, logs, hists, i);
    hide Layout, PartHolds, HandleOf;
  }

  /**
   * After any run of operations on all partitions, restarts included, the walk back from the latest element of a static
   * partition yields the payloads stored last in that partition, newest first: as many as it has slots, or all since it
   * was cleared if these are fewer. Then the walk ends, with the code for nothing found.
   */
  lemma RunsYieldNewest(g: Geometry, s: System, reqs: seq<Request>, logs: seq<Log>, hists: seq<seq<seq<byte>>>,
                        actions: seq<Action>, t: System, hists': seq<seq<seq<byte>>>, i: nat, it: Iterator, m: nat)
    requires SysInv(g, s, reqs, logs, hists) && Sized(g, s) && Leads(g, reqs, s, hists, actions, t, hists')
    requires i < |reqs| && i < MAX_PARTITIONS && !reqs[i].dynamic && i < |hists'| && hists'[i] != [] && i < |t.parts|
    requires KeepsAll(Slots(HandleOf(i, reqs[i]), t.parts[i]), |hists'[i]|)
    ensures var pid, p := HandleOf(i, reqs[i]), t.parts[i];
            var start := IteratorInit(t.mem, pid, p, it);
      && start.ret == Success && start.writes == []
      && DataOf(WalkBack(t.mem, pid, p, start.iter, m)) == NewestOf(hists'[i], Min(m, Slots(pid, p)))
      && WalkEnd(t.mem, pid, p, start.iter, m) == if m < Min(|hists'[i]|, Slots(pid, p)) then Success else NotFound
  {
    hide *;
    var logs' := RunsKeep(g, s, reqs, logs, hists, actions, t, hists');
    HoldsInRun(g, t, reqs, logs', hists', i);
    WalkYieldsNewest(t.mem, HandleOf(i, reqs[i]), t.parts[i], it, logs'[i], hists'[i], m);
  }

  /**
   * In a partition of either kind the walk yields at least the payloads of the current lap, newest first, where the laps
   * are computed from the lengths of the payloads alone.
   */
  lemma RunsYieldLap(g: Geometry, s: System, reqs: seq<Request>, logs: seq<Log>, hists: seq<seq<seq<byte>>>,
                     actions: seq<Action>, t: System, hists': seq<seq<seq<byte>>>, i: nat, it: Iterator, m: nat)
    requires SysInv(g, s, reqs, logs, hists) && Sized(g, s) && Leads(g, reqs, s, hists, actions, t, hists')
    requires i < |reqs| && i < MAX_PARTITIONS && i < |hists'| && hists'[i] != [] && i < |t.parts|
    requires m <= |LapOf(HandleOf(i, reqs[i]), t.parts[i].metadata.partitionSize, hists'[i])|
    ensures var pid, p := HandleOf(i, reqs[i]), t.parts[i];
            var start := IteratorInit(t.mem, pid, p, it);
      && start.ret == Success && start.writes == []
      && DataOf(WalkBack(t.mem, pid, p, start.iter, m)) == NewestOf(hists'[i], m)
  {
    hide *;
    var logs' := RunsKeep(g, s, reqs, logs, hists, actions, t, hists');
    HoldsInRun(g, t, reqs, logs', hists', i);
    LapIsReachable(t.mem, HandleOf(i, reqs[i]), t.parts[i], logs'[i], hists'[i]);
    WalkInLapYieldsNewest(t.mem, HandleOf(i, reqs[i]), t.parts[i], it, logs'[i], hists'[i], m);
  }
}
