/** From erased storage through reset and registration to stores and the walk: where runs begin. */
module FsFromErased {
  import opened Bytes
  import opened Units
  import opened FsTypes
  import opened FsSpec
  import opened FsLog
  import opened FsStore
  import opened FsKeep
  import opened FsClear
  import opened FsWalk
  import opened FsRing
  import opened FsRingWalk
  import opened FsRingExact
  import opened FsHistory
  import opened FsSystem
  import opened FsPerform
  import opened FsRuns
  import opened FsFills

  predicate Erased(mem: seq<byte>) {
    forall i :: 0 <= i < |mem| ==> mem[i] == 0xFF
  }

  /** Every one of the registrations succeeds. */
  predicate AllGranted(g: Geometry, s: System, reqs: seq<Request>)
    requires Sized(g, s)
    decreases |reqs|
  {
    hide Sized, Register, RegisterAll;
    reqs != [] ==>
      var before := reqs[..|reqs| - 1];
      AllGranted(g, s, before) && Register(g, RegisterAll(g, s, before), reqs[|reqs| - 1]).ret == Success
  }

  function NoLogs(n: nat): (logs: seq<Log>)
    ensures |logs| == n
  {
    seq(n, _ => EMPTY_LOG)
  }

  function NoHists(n: nat): (hists: seq<seq<seq<byte>>>)
    ensures |hists| == n
  {
    seq(n, _ => [])
  }

  /** Erased storage holds no header of any partition. */
  lemma ErasedReads(mem: seq<byte>, pid: u16, p: Partition)
    requires Erased(mem) && Registered(mem, pid, p)
    ensures ReadFirst(mem, pid, p).ret == NotFound
  {
    RoomForCopies(mem, pid, p);
    var swap, start, n := SwapAddress(pid), p.firstElementAddress, FirstLen(pid);
    assert mem[swap..swap + n] == ErasedBlob(pid) && mem[start..start + n] == ErasedBlob(pid);
    hide Registered, HeaderLen, SwapAddress, ReadFirst;
    ErasedIsEmpty(mem, pid, p);
  }

  /** What a registration that succeeds has found. */
  lemma GrantedMeans(g: Geometry, s: System, req: Request) returns (size: nat)
    requires Sized(g, s) && Register(g, s, req).ret == Success
    ensures s.number < MAX_PARTITIONS == |s.parts| && (req.dynamic || req.elementLen > 0)
    ensures AvailableSize(g, s.nextFree, req.size) == Available(size)
    ensures FirstLen(HandleOf(s.number, req)) + ElementLen(req) <= size
  {
    hide Scan, NewRecord, HandleOf, UnitLimits, Regular, TotalSize, HeaderLen, Apply;
    size := AvailableSize(g, s.nextFree, req.size).size;
  }

  lemma NoneMore(n: nat)
    ensures NoLogs(n + 1) == NoLogs(n) + [EMPTY_LOG] && NoHists(n + 1) == NoHists(n) + [[]]
  {
  }

  lemma RegistersLast(g: Geometry, s: System, reqs: seq<Request>)
    requires Sized(g, s) && reqs != []
    ensures var before, req := reqs[..|reqs| - 1], reqs[|reqs| - 1];
      && before + [req] == reqs && Sized(g, RegisterAll(g, s, before))
      && RegisterAll(g, s, reqs) == Register(g, RegisterAll(g, s, before), req).sys
      && (AllGranted(g, s, reqs) ==>
            AllGranted(g, s, before) && Register(g, RegisterAll(g, s, before), req).ret == Success)
  {
    hide Sized, Register;
  }

  /** On erased storage every registration adds an empty partition to those before it, and writes nothing. */
  lemma {:induction false} ErasedStarts(g: Geometry, s: System, reqs: seq<Request>)
    requires SysInv(g, s, [], [], []) && Sized(g, s) && Erased(s.mem) && AllGranted(g, s, reqs)
    ensures SysInv(g, RegisterAll(g, s, reqs), reqs, NoLogs(|reqs|), NoHists(|reqs|))
    ensures RegisterAll(g, s, reqs).mem == s.mem
    decreases |reqs|
  {
    hide SysInv, Sized, AllGranted, Register, Erased, HandleOf, AvailableSize, NewRecord, ReadFirst;
    if reqs == [] {
      assert NoLogs(0) == [] && NoHists(0) == [];
    } else {
      hide RegisterAll, NoLogs, NoHists;
      RegistersLast(g, s, reqs);
      var before, req := reqs[..|reqs| - 1], reqs[|reqs| - 1];
      ErasedStarts(g, s, before);
      NoneMore(|before|);
      OneMoreRegistered(g, RegisterAll(g, s, before), before, NoLogs(|before|), NoHists(|before|), req);
    }
  }

  lemma OneMoreRegistered(g: Geometry, s: System, reqs: seq<Request>, logs: seq<Log>, hists: seq<seq<seq<byte>>>, req: Request)
    requires SysInv(g, s, reqs, logs, hists) && Sized(g, s) && Erased(s.mem) && Register(g, s, req).ret == Success
    ensures SysInv(g, Register(g, s, req).sys, reqs + [req], logs + [EMPTY_LOG], hists + [[]])
    ensures Register(g, s, req).sys.mem == s.mem
  {
    hide *;
    var size := GrantedMeans(g, s, req);
    SystemIsLaidOut(g, s, reqs, logs, hists);
    NewIsRegistered(g, s, req, size);
    ErasedReads(s.mem, HandleOf(s.number, req), NewRecord(s, req, size));
    RegisterAddsEmpty(g, s, reqs, logs, hists, req, size);
  }

  /** The bytes a partition needs at least: metadata and one element, of which a dynamic one has but the header. */
  function Needed(req: Request): nat {
    14 + 2 + (if req.dynamic then 2 else req.elementLen) + (if req.crc then 2 else 0)
  }

  /** A handle is left, and the units that cover what is asked for, as far as storage goes, hold what is needed. */
  ghost predicate HasSpace(g: Geometry, s: System, req: Request) {
    && s.number < 20 && (req.dynamic || req.elementLen > 0) && req.size > 0 && s.nextFree < |s.mem|
    && Suffices(g, s.nextFree + AsFarAs(req.size, |s.mem| - s.nextFree), s.nextFree + Needed(req))
  }

  /** The first boundary at or behind `x` is not in front of `needed`. */
  ghost predicate Suffices(g: Geometry, x: nat, needed: nat) {
    exists end: nat :: FirstBoundary(g, x, end) && needed <= end
  }

  lemma NeededIs(number: nat, req: Request)
    requires number < MAX_PARTITIONS
    ensures FirstLen(HandleOf(number, req)) + ElementLen(req) == Needed(req)
  {
    hide HandleOf;
  }

  lemma FirstIsOne(g: Geometry, x: nat, a: nat, b: nat)
    requires FirstBoundary(g, x, a) && FirstBoundary(g, x, b)
    ensures a == b
  {
    hide IsBoundary;
  }

  /** There is space exactly if the size that is computed is enough. */
  lemma SpaceIsAvailable(g: Geometry, s: System, req: Request)
    requires Sized(g, s) && IsBoundary(g, s.nextFree) && s.number < MAX_PARTITIONS
    ensures HasSpace(g, s, req) <==>
              && (req.dynamic || req.elementLen > 0) && AvailableSize(g, s.nextFree, req.size).Available?
              && FirstLen(HandleOf(s.number, req)) + ElementLen(req) <= AvailableSize(g, s.nextFree, req.size).size
  {
    AvailableIsLeast(g, s.nextFree, req.size);
    NeededIs(s.number, req);
    hide IsBoundary, AvailableSize, FirstBoundary, HandleOf, HeaderLen, Needed, ElementLen;
    var a := AvailableSize(g, s.nextFree, req.size);
    if HasSpace(g, s, req) {
      var x := s.nextFree + AsFarAs(req.size, |s.mem| - s.nextFree);
      var end: nat :| FirstBoundary(g, x, end) && s.nextFree + Needed(req) <= end;
      FirstIsOne(g, x, end, s.nextFree + a.size);
    }
  }

  /** On erased storage a registration succeeds exactly if there is space. */
  lemma GrantedIff(g: Geometry, s: System, reqs: seq<Request>, logs: seq<Log>, hists: seq<seq<seq<byte>>>, req: Request)
    requires SysInv(g, s, reqs, logs, hists) && Sized(g, s) && Erased(s.mem)
    ensures Register(g, s, req).ret == Success <==> HasSpace(g, s, req)
  {
    SystemIsLaidOut(g, s, reqs, logs, hists);
    hide SysInv, Erased, Register, HandleOf, AvailableSize, NewRecord, ReadFirst, Sized, HeaderLen, HasSpace, FirstBoundary, IsBoundary,
      Allocated, TotalSize;
    LaidOutBoundary(g, s);
    if Register(g, s, req).ret == Success {
      var size := GrantedMeans(g, s, req);
      SpaceIsAvailable(g, s, req);
    }
    if HasSpace(g, s, req) {
      SpaceHasHandle(g, s, req);
      SpaceIsAvailable(g, s, req);
      var size := AvailableSize(g, s.nextFree, req.size).size;
      NewIsRegistered(g, s, req, size);
      ErasedReads(s.mem, HandleOf(s.number, req), NewRecord(s, req, size));
      RegisterAddsEmpty(g, s, reqs, logs, hists, req, size);
    }
  }

  lemma LaidOutBoundary(g: Geometry, s: System)
    requires Layout(g, s)
    ensures IsBoundary(g, s.nextFree)
  {
  }

  lemma SpaceHasHandle(g: Geometry, s: System, req: Request)
    requires HasSpace(g, s, req)
    ensures s.number < MAX_PARTITIONS && (req.dynamic || req.elementLen > 0)
  {
  }

  lemma ResetKeepsStorage(g: Geometry, s: System)
    requires Sized(g, s)
    ensures Sized(g, Reset(g, s).1) && Reset(g, s).1.mem == s.mem
  {
  }

  lemma InvIsSized(g: Geometry, s: System, reqs: seq<Request>)
    requires Sized(g, s)
    ensures Sized(g, RegisterAll(g, s, reqs))
  {
    hide Sized;
  }

  /**
   * From erased storage: after a reset, any registrations that succeed, and then any run of operations on all partitions,
   * restarts included, the walk of a static partition yields the payloads stored last in it, newest first, and then ends.
   */
  lemma FromErased(g: Geometry, s: System, reqs: seq<Request>, actions: seq<Action>, t: System, hists: seq<seq<seq<byte>>>,
                   i: nat, it: Iterator, m: nat)
    requires ByteUnits(g) && Sized(g, s) && Erased(s.mem) && Reset(g, s).0 == Success
    requires Sized(g, Reset(g, s).1) && AllGranted(g, Reset(g, s).1, reqs)
    requires Leads(g, reqs, RegisterAll(g, Reset(g, s).1, reqs), NoHists(|reqs|), actions, t, hists)
    requires i < |reqs| && i < MAX_PARTITIONS && !reqs[i].dynamic && i < |hists| && hists[i] != [] && i < |t.parts|
    requires KeepsAll(Slots(HandleOf(i, reqs[i]), t.parts[i]), |hists[i]|)
    ensures var pid, p := HandleOf(i, reqs[i]), t.parts[i];
            var start := IteratorInit(t.mem, pid, p, it);
      && start.ret == Success && start.writes == []
      && DataOf(WalkBack(t.mem, pid, p, start.iter, m)) == NewestOf(hists[i], Min(m, Slots(pid, p)))
      && WalkEnd(t.mem, pid, p, start.iter, m) == if m < Min(|hists[i]|, Slots(pid, p)) then Success else NotFound
  {
    hide *;
    ResetKeepsStorage(g, s);
    ResetHoldsNothing(g, s);
    var s0 := Reset(g, s).1;
    ErasedStarts(g, s0, reqs);
    InvIsSized(g, s0, reqs);
    RunsYieldNewest(g, RegisterAll(g, s0, reqs), reqs, NoLogs(|reqs|), NoHists(|reqs|), actions, t, hists, i, it, m);
  }

  /** The state of partition `i` after the registrations. */
  function StateOf(s: System, i: nat, iter: Iterator): State
    requires i < |s.parts|
  {
    State(s.mem, s.parts[i], iter)
  }

  lemma RegisteredIsReady(g: Geometry, s: System, reqs: seq<Request>, i: nat, iter: Iterator)
    requires SysInv(g, s, reqs, NoLogs(|reqs|), NoHists(|reqs|)) && i < |reqs| && i < |s.parts| && i < MAX_PARTITIONS
    requires !reqs[i].dynamic && !iter.valid && RoomBehind(|s.mem|, HandleOf(i, reqs[i]), s.parts[i])
    ensures FsFills.Ready(g, HandleOf(i, reqs[i]), StateOf(s, i, iter), EMPTY_LOG, [])
  {
    HoldsInRun(g, s, reqs, NoLogs(|reqs|), NoHists(|reqs|), i);
    hide PartHolds, RoomBehind, HandleOf, InvAt, StartOf;
  }

  /**
   * Such runs exist. A static partition registered on erased storage, with as much storage behind it as a header needs, takes
   * any payloads of its length, one after the other, and the walk yields the newest ones exactly if `KeepsAll` says so.
   */
  lemma FillsFromErased(g: Geometry, s: System, reqs: seq<Request>, i: nat, iter: Iterator, datas: seq<seq<byte>>)
    returns (s': State)
    requires ByteUnits(g) && Sized(g, s) && Erased(s.mem) && Reset(g, s).0 == Success
    requires Sized(g, Reset(g, s).1) && AllGranted(g, Reset(g, s).1, reqs) && i < |reqs| && i < MAX_PARTITIONS
    requires var t := RegisterAll(g, Reset(g, s).1, reqs);
      && i < |t.parts| && RoomBehind(|t.mem|, HandleOf(i, reqs[i]), t.parts[i]) && AllOfCommonLen(t.parts[i], datas)
    requires !reqs[i].dynamic && !iter.valid && datas != []
    ensures var t, pid := RegisterAll(g, Reset(g, s).1, reqs), HandleOf(i, reqs[i]);
      && AllStored(g, pid, StateOf(t, i, iter), datas, s')
      && (YieldsNewest(s'.mem, pid, s'.part, s'.iter, datas) <==> KeepsAll(Slots(pid, t.parts[i]), |datas|))
  {
    hide *;
    ResetKeepsStorage(g, s);
    ResetHoldsNothing(g, s);
    var s0 := Reset(g, s).1;
    ErasedStarts(g, s0, reqs);
    var t := RegisterAll(g, s0, reqs);
    RegisteredIsReady(g, t, reqs, i, iter);
    PartIs(t, i, iter);
    s' := FilledRing(g, HandleOf(i, reqs[i]), StateOf(t, i, iter), datas);
  }

  lemma PartIs(s: System, i: nat, iter: Iterator)
    requires i < |s.parts|
    ensures StateOf(s, i, iter).part == s.parts[i]
  {
  }
}
