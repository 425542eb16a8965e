/** Iterators over whole runs: a valid one always stands on an element, and no store takes that element away. */
module FsIteratorRuns {
  import opened Bytes
  import opened Units
  import opened FsTypes
  import opened FsSpec
  import opened FsLog
  import opened FsStore
  import opened FsKeep
  import opened FsWalk
  import opened FsRing
  import opened FsRingWalk
  import opened FsIterator
  import opened FsHistory
  import opened FsSystem
  import opened FsStanding
  import opened FsPerform
  import opened FsRuns

  // ---- every valid iterator stands on an element ----

  ghost predicate StandingAt(s: System, logs: seq<Log>, i: nat)
    requires i < |s.parts| == |s.iters| && i < |logs|
  {
    Standing(s.parts[i].metadata.partitionId, s.parts[i], s.iters[i], logs[i])
  }

  ghost predicate AllStanding(s: System, logs: seq<Log>) {
    && s.number == |logs| <= |s.parts| == |s.iters|
    && forall i :: 0 <= i < s.number ==> StandingAt(s, logs, i)
  }

  /** After a restart an iterator is not valid, or RAM has kept it. */
  predicate CleanRestart(s: System, a: Action) {
    a.Restart? ==> forall i :: 0 <= i < |a.iters| ==> !a.iters[i].valid || (i < |s.iters| && a.iters[i] == s.iters[i])
  }

  lemma OtherStands(s: System, s': System, logs: seq<Log>, k: nat, r: Outcome, log': Log)
    requires AllStanding(s, logs) && k < s.number && Becomes(s, k, r, s')
    requires Standing(r.part.metadata.partitionId, r.part, r.iter, log')
    ensures AllStanding(s', Put(logs, k, log'))
  {
    hide Standing, Apply;
    forall i | 0 <= i < s.number ensures StandingAt(s', Put(logs, k, log'), i) {
      assert StandingAt(s, logs, i);
    }
  }

  lemma OnStands(g: Geometry, s: System, reqs: seq<Request>, logs: seq<Log>, hists: seq<seq<seq<byte>>>, pid: u16, c: Command)
    returns (log': Log)
    requires SysInv(g, s, reqs, logs, hists) && Possible(g, s, On(pid, c)) && AllStanding(s, logs)
    ensures SysInv(g, Execute(g, s, reqs, On(pid, c)), reqs, Put(logs, Index(pid), log'), Recall(g, s, On(pid, c), hists))
    ensures AllStanding(Execute(g, s, reqs, On(pid, c)), Put(logs, Index(pid), log'))
  {
    var k, p, it := Index(pid), PartOf(s, pid), IterOf(s, pid);
    var r := Perform(g, s.mem, pid, p, it, c);
    var s' := Execute(g, s, reqs, On(pid, c));
    log' := OnKeeps(g, s, reqs, logs, hists, pid, c);
    assert StandingAt(s, logs, k);
    hide Perform, Remember, Registered, Serves, PartHolds, ChangedOwn, Standing, Spared, SysInv, TotalSize, Regular, AllStanding;
    assert SameShape(pid, p, r.part) && Standing(pid, r.part, r.iter, log');
    OtherStands(s, s', logs, k, r, log');
  }

  lemma RestartStands(s: System, t: System, logs: seq<Log>)
    requires AllStanding(s, logs) && SameContents(s, t) && |t.parts| == |t.iters|
    requires forall i :: 0 <= i < |t.iters| ==> !t.iters[i].valid || (i < |s.iters| && t.iters[i] == s.iters[i])
    ensures AllStanding(t, logs)
  {
    hide Steady, OnElement, SameShape;
    forall i | 0 <= i < t.number ensures StandingAt(t, logs, i) {
      assert StandingAt(s, logs, i) && Alike(s.parts[i], t.parts[i]);
      ShapeKeepsId(s.parts[i], t.parts[i]);
      SteadyAlike(s.parts[i].metadata.partitionId, s.parts[i], t.parts[i]);
    }
  }

  lemma ShapeKeepsId(p: Partition, q: Partition)
    requires Alike(p, q)
    ensures q.metadata.partitionId == p.metadata.partitionId && SameShape(p.metadata.partitionId, p, q)
  {
  }

  lemma ActionStands(g: Geometry, s: System, reqs: seq<Request>, logs: seq<Log>, hists: seq<seq<seq<byte>>>, a: Action)
    returns (logs': seq<Log>)
    requires SysInv(g, s, reqs, logs, hists) && Possible(g, s, a) && AllStanding(s, logs) && CleanRestart(s, a)
    ensures SysInv(g, Execute(g, s, reqs, a), reqs, logs', Recall(g, s, a, hists))
    ensures AllStanding(Execute(g, s, reqs, a), logs')
  {
    match a {
      case On(pid, c) =>
        var log' := OnStands(g, s, reqs, logs, hists, pid, c);
        logs' := Put(logs, Index(pid), log');
      case Restart(parts, iters) =>
        RestartKeeps(g, s, reqs, logs, hists, parts, iters);
        logs' := logs;
        var t := Rebooted(g, s, reqs, parts, iters);
        assert |t.parts| == |t.iters|;
        hide SysInv, Rebooted, AllStanding, SameContents, Sized;
        RestartStands(s, t, logs);
    }
  }

  /** All restarts of a run are clean. */
  ghost predicate CleanRun(g: Geometry, reqs: seq<Request>, s: System, actions: seq<Action>)
    requires Sized(g, s)
    decreases |actions|
  {
    hide Sized, Possible, Execute;
    actions != [] && Possible(g, s, actions[0]) ==>
      CleanRestart(s, actions[0]) && CleanRun(g, reqs, Execute(g, s, reqs, actions[0]), actions[1..])
  }

  /** In every run with clean restarts, every valid iterator of a steady partition that holds something stands on an element. */
  lemma {:induction false} RunsKeepStanding(g: Geometry, s: System, reqs: seq<Request>, logs: seq<Log>, hists: seq<seq<seq<byte>>>,
                                            actions: seq<Action>, t: System, hists': seq<seq<seq<byte>>>)
    returns (logs': seq<Log>)
    requires SysInv(g, s, reqs, logs, hists) && AllStanding(s, logs)
    requires Sized(g, s) && Leads(g, reqs, s, hists, actions, t, hists') && CleanRun(g, reqs, s, actions)
    ensures SysInv(g, t, reqs, logs', hists') && AllStanding(t, logs')
    decreases |actions|
  {
    hide SysInv, AllStanding, Sized, Possible, Execute, Recall, CleanRestart;
    if actions == [] {
      logs' := logs;
    } else {
      var next := ActionStands(g, s, reqs, logs, hists, actions[0]);
      logs' := RunsKeepStanding(g, Execute(g, s, reqs, actions[0]), reqs, next, Recall(g, s, actions[0], hists), actions[1..], t,
                                hists');
    }
  }

  // ---- an iterator left alone while stores go on ----

  /** Anything on other partitions; on the partition in question nothing but stores. */
  predicate StoresAt(k: nat, a: Action) {
    a.On? && (Index(a.pid) == k ==> a.command.Store?)
  }

  /** The iterator of partition `k` stands on `x`. */
  ghost predicate Holding(s: System, logs: seq<Log>, k: nat, x: Elem) {
    && k < s.number == |logs| <= |s.parts| == |s.iters|
    && s.parts[k].hasFirstElement && Steady(s.parts[k].metadata.partitionId, s.parts[k])
    && x in All(logs[k]) && StandsOn(s.parts[k].metadata.partitionId, s.iters[k], x)
  }

  lemma HoldsElements(g: Geometry, s: System, reqs: seq<Request>, logs: seq<Log>, hists: seq<seq<seq<byte>>>, k: nat)
    requires SysInv(g, s, reqs, logs, hists) && k < s.number
    ensures s.number == |logs| <= |s.parts| == |s.iters|
    ensures All(logs[k]) != [] ==> s.parts[k].hasFirstElement
    ensures PartHolds(s.mem, s.parts[k].metadata.partitionId, s.parts[k], logs[k], hists[k])
  {
    assert InvAt(g, s, reqs, logs, hists, k);
    hide PartInv, HistoryInv, Allocated, IsBoundary, Planned;
  }

  lemma StoreKeepsHolding(g: Geometry, s: System, reqs: seq<Request>, logs: seq<Log>, hists: seq<seq<seq<byte>>>, k: nat, x: Elem,
                          pid: u16, c: Command) returns (logs': seq<Log>)
    requires SysInv(g, s, reqs, logs, hists) && Possible(g, s, On(pid, c)) && StoresAt(k, On(pid, c))
    requires Holding(s, logs, k, x)
    ensures var s' := Execute(g, s, reqs, On(pid, c));
      && SysInv(g, s', reqs, logs', Recall(g, s, On(pid, c), hists)) && Holding(s', logs', k, x)
      && s'.iters[k] == s.iters[k]
  {
    var j, p, it := Index(pid), PartOf(s, pid), IterOf(s, pid);
    var r := Perform(g, s.mem, pid, p, it, c);
    var s' := Execute(g, s, reqs, On(pid, c));
    var log' := OnKeeps(g, s, reqs, logs, hists, pid, c);
    logs' := Put(logs, j, log');
    assert s'.number == s.number && pid == p.metadata.partitionId;
    HoldsElements(g, s', reqs, logs', Recall(g, s, On(pid, c), hists), k);
    hide Perform, Remember, Registered, Serves, PartHolds, ChangedOwn, Standing, SysInv, TotalSize, Regular, Steady, StandsOn;
    if j == k {
      assert Spared(pid, p, it, logs[k], r, log') && SameShape(pid, p, r.part);
      SteadyAlike(pid, p, r.part);
      hide SameShape;
      assert x in All(log') && r.iter == it;
    }
  }

  /**
   * While an iterator stands on an element, any number of stores into its partition, and anything on the other ones,
   * leave it there, and leave the element readable under it.
   */
  lemma {:induction false} StoresLeaveIterator(g: Geometry, s: System, reqs: seq<Request>, logs: seq<Log>,
                                               hists: seq<seq<seq<byte>>>, actions: seq<Action>, t: System,
                                               hists': seq<seq<seq<byte>>>, k: nat, x: Elem)
    returns (logs': seq<Log>)
    requires SysInv(g, s, reqs, logs, hists) && Holding(s, logs, k, x)
    requires Sized(g, s) && Leads(g, reqs, s, hists, actions, t, hists')
    requires forall a <- actions :: StoresAt(k, a)
    ensures SysInv(g, t, reqs, logs', hists') && Holding(t, logs', k, x) && t.iters[k] == s.iters[k]
    decreases |actions|
  {
    hide SysInv, Holding, Sized, Possible, Execute, Recall;
    if actions == [] {
      logs' := logs;
    } else {
      var a := actions[0];
      assert StoresAt(k, a);
      assert forall b <- actions[1..] :: StoresAt(k, b) by {
        assert forall b <- actions[1..] :: b in actions;
      }
      var next := StoreKeepsHolding(g, s, reqs, logs, hists, k, x, a.pid, a.command);
      logs' := StoresLeaveIterator(g, Execute(g, s, reqs, a), reqs, next, Recall(g, s, a, hists), actions[1..], t, hists', k, x);
    }
  }

  /** What an iterator that stands on an element reads. */
  lemma HoldingReads(g: Geometry, s: System, reqs: seq<Request>, logs: seq<Log>, hists: seq<seq<seq<byte>>>, k: nat, x: Elem)
    requires SysInv(g, s, reqs, logs, hists) && Holding(s, logs, k, x)
    ensures var r := IteratorRead(s.mem, s.parts[k].metadata.partitionId, s.parts[k], s.iters[k]);
            r.outcome.ret == Success && r.data == x.data && r.recordId == x.id
  {
    HoldsElements(g, s, reqs, logs, hists, k);
    hide SysInv, LogInv, RingInv, HoldsLap, EmptyInv, IteratorRead, At;
    HoldsRing(s.mem, s.parts[k].metadata.partitionId, s.parts[k], logs[k], hists[k]);
    ReadInLog(s.mem, s.parts[k].metadata.partitionId, s.parts[k], logs[k], x);
  }

  /** Reading, then any number of stores, then reading again: the same payload, the same record identifier. */
  lemma ReadsTheSame(g: Geometry, s: System, reqs: seq<Request>, logs: seq<Log>, hists: seq<seq<seq<byte>>>,
                     actions: seq<Action>, t: System, hists': seq<seq<seq<byte>>>, k: nat)
    requires SysInv(g, s, reqs, logs, hists) && AllStanding(s, logs)
    requires Sized(g, s) && Leads(g, reqs, s, hists, actions, t, hists')
    requires forall a <- actions :: StoresAt(k, a)
    requires k < s.number && k < |s.parts| == |s.iters| && s.iters[k].valid && s.parts[k].hasFirstElement
    requires Steady(s.parts[k].metadata.partitionId, s.parts[k])
    ensures k < |t.parts| == |t.iters| && t.iters[k] == s.iters[k]
    ensures var before := IteratorRead(s.mem, s.parts[k].metadata.partitionId, s.parts[k], s.iters[k]);
            var after := IteratorRead(t.mem, t.parts[k].metadata.partitionId, t.parts[k], t.iters[k]);
      && before.outcome.ret == Success && after.outcome.ret == Success
      && after.data == before.data && after.recordId == before.recordId
  {
    var pid := s.parts[k].metadata.partitionId;
    assert StandingAt(s, logs, k);
    hide IteratorRead, StandsOn, SysInv, Steady, Leads, Sized, All;
    var x :| x in All(logs[k]) && StandsOn(pid, s.iters[k], x);
    assert Holding(s, logs, k, x);
    hide AllStanding;
    HoldingReads(g, s, reqs, logs, hists, k, x);
    var logs' := StoresLeaveIterator(g, s, reqs, logs, hists, actions, t, hists', k, x);
    HoldingReads(g, t, reqs, logs', hists', k, x);
  }
}
