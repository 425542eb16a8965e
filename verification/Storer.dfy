/** Finding the chunks since a point in time, and reading them one after the other (storer_lib.c), on the filesystem. */
module Storer {
  import opened Bytes
  import opened Units
  import opened FsTypes
  import opened FsSpec
  import opened FsLog
  import opened FsStore
  import opened FsWalk
  import opened FsRing
  import opened FsRingWalk
  import opened FsRingExact
  import opened FsHistory
  import opened FsSystem
  import opened FsRuns
  import Filesystem

  /** What decoding a payload yields: a chunk with its timestamp in milliseconds, or nothing. */
  datatype Content = Broken | Chunk(time: nat)

  type Decoder = seq<byte> -> Content

  // ---- what should be found ----

  /** A chunk that is older than what is asked for. */
  predicate Older(decode: Decoder, data: seq<byte>, time: nat) { decode(data).Chunk? && decode(data).time < time }

  /** Behind the latest payload that is older: from there on everything is asked for. */
  function Since(decode: Decoder, ps: seq<seq<byte>>, time: nat): (j: nat)
    ensures j <= |ps|
    ensures forall i :: j <= i < |ps| ==> !Older(decode, ps[i], time)
    ensures j > 0 ==> Older(decode, ps[j - 1], time)
  {
    if ps == [] then 0
    else if Older(decode, ps[|ps| - 1], time) then |ps|
    else Since(decode, ps[..|ps| - 1], time)
  }

  /** The payloads that can be decoded. */
  function Chunks(decode: Decoder, ps: seq<seq<byte>>): seq<seq<byte>> {
    if ps == [] then []
    else (if decode(ps[0]).Chunk? then [ps[0]] else []) + Chunks(decode, ps[1..])
  }

  /** Those of them that are not older. */
  function NotOlder(decode: Decoder, ps: seq<seq<byte>>, time: nat): seq<seq<byte>> {
    if ps == [] then []
    else (if decode(ps[0]).Chunk? && decode(ps[0]).time >= time then [ps[0]] else []) + NotOlder(decode, ps[1..], time)
  }

  /** The chunks were stored in the order of their timestamps. */
  predicate Ascending(decode: Decoder, ps: seq<seq<byte>>) {
    forall i, j :: 0 <= i < j < |ps| && decode(ps[i]).Chunk? && decode(ps[j]).Chunk? ==> decode(ps[i]).time <= decode(ps[j]).time
  }

  lemma SinceIs(decode: Decoder, ps: seq<seq<byte>>, time: nat, j: nat)
    requires j <= |ps| && (forall i :: j <= i < |ps| ==> !Older(decode, ps[i], time)) && (j > 0 ==> Older(decode, ps[j - 1], time))
    ensures Since(decode, ps, time) == j
  {
  }

  lemma {:induction false} AllNotOlder(decode: Decoder, ps: seq<seq<byte>>, time: nat)
    requires forall i :: 0 <= i < |ps| ==> !Older(decode, ps[i], time)
    ensures NotOlder(decode, ps, time) == Chunks(decode, ps)
    decreases |ps|
  {
    if ps != [] {
      forall i | 0 <= i < |ps[1..]| ensures !Older(decode, ps[1..][i], time) {
        assert ps[1..][i] == ps[i + 1];
      }
      AllNotOlder(decode, ps[1..], time);
    }
  }

  lemma {:induction false} FirstOnesOlder(decode: Decoder, ps: seq<seq<byte>>, time: nat, j: nat)
    requires j <= |ps| && Ascending(decode, ps) && (j > 0 ==> Older(decode, ps[j - 1], time))
    ensures NotOlder(decode, ps, time) == NotOlder(decode, ps[j..], time)
    decreases j
  {
    if j > 0 {
      assert decode(ps[0]).Chunk? ==> decode(ps[0]).time < time;
      assert forall i, k :: 0 <= i < k < |ps[1..]| ==> ps[1..][i] == ps[i + 1] && ps[1..][k] == ps[k + 1];
      FirstOnesOlder(decode, ps[1..], time, j - 1);
      assert ps[1..][j - 1..] == ps[j..];
    } else {
      assert ps[0..] == ps;
    }
  }

  /** With timestamps in order, what is found are all the chunks that are not older, and no others. */
  lemma SinceIsNotOlder(decode: Decoder, ps: seq<seq<byte>>, time: nat)
    requires Ascending(decode, ps)
    ensures Chunks(decode, ps[Since(decode, ps, time)..]) == NotOlder(decode, ps, time)
  {
    var j := Since(decode, ps, time);
    FirstOnesOlder(decode, ps, time, j);
    forall i | 0 <= i < |ps[j..]| ensures !Older(decode, ps[j..][i], time) {
      assert ps[j..][i] == ps[j + i];
    }
    AllNotOlder(decode, ps[j..], time);
  }

  // ---- what the iterator finds ----

  /** A log whose walk ends at both ends. */
  predicate Walkable(mem: seq<byte>, pid: u16, p: Partition, log: Log) {
    && LogInv(mem, pid, p, log)
    && |Reachable(log)[0].data| < 0x1_0000 && |Last(log.chain).data| < 0x1_0000
    && IteratorPrevious(mem, pid, p, At(pid, Reachable(log)[0])) == Outcome(NotFound, p, At(pid, Reachable(log)[0]), [])
    && IteratorNext(mem, pid, p, At(pid, Last(log.chain))) == Outcome(NotFound, p, At(pid, Last(log.chain)), [])
  }

  /** What the iterator operations do on the reachable elements. */
  lemma OnReachable(mem: seq<byte>, pid: u16, p: Partition, log: Log, it: Iterator, i: nat)
    requires Walkable(mem, pid, p, log) && i < |Reachable(log)|
    ensures |Reachable(log)[i].data| < 0x1_0000
    ensures i > 0 ==> |Reachable(log)[i - 1].data| < 0x1_0000
    ensures i + 1 < |Reachable(log)| ==> |Reachable(log)[i + 1].data| < 0x1_0000
    ensures var r := Reachable(log);
            var here := At(pid, r[i]);
      && IteratorRead(mem, pid, p, here) == ElementRead(Outcome(Success, p, here, []), r[i].data, r[i].id)
      && IteratorPrevious(mem, pid, p, here)
         == (if i == 0 then Outcome(NotFound, p, here, []) else Outcome(Success, p, At(pid, r[i - 1]), []))
      && IteratorNext(mem, pid, p, here)
         == (if i + 1 == |r| then Outcome(NotFound, p, here, []) else Outcome(Success, p, At(pid, r[i + 1]), []))
  {
    hide LogInv, IteratorRead, IteratorPrevious, IteratorNext, At, Reachable;
    ReadReachable(mem, pid, p, log, i);
    LastReachable(mem, pid, p, log);
    if i > 0 {
      PreviousIsPrevious(mem, pid, p, log, i);
    }
    if i + 1 < |Reachable(log)| {
      NextUndoesPrevious(mem, pid, p, log, i + 1);
      PreviousIsPrevious(mem, pid, p, log, i + 1);
    }
  }

  /** Initialising the iterator, with elements or without. */
  lemma InitOnLog(mem: seq<byte>, pid: u16, p: Partition, it: Iterator, log: Log)
    requires Walkable(mem, pid, p, log)
    ensures |Reachable(log)| > 0 && |Reachable(log)[|Reachable(log)| - 1].data| < 0x1_0000
    ensures FsSpec.IteratorInit(mem, pid, p, it) == Outcome(Success, p, At(pid, Reachable(log)[|Reachable(log)| - 1]), [])
  {
    hide LogInv, FsSpec.IteratorInit, IteratorPrevious, IteratorNext, At, Reachable;
    LastReachable(mem, pid, p, log);
    InitAtLatest(mem, pid, p, it, log);
  }

  // ---- the code ----

  class Reader {
    const fs: Filesystem.Store
    const pid: u16
    const decode: Decoder
    /** The iterator stands on the element to be read next, not on the one before it. */
    var found: bool

    /** The partition has the elements of `log`, or none at all. */
    ghost predicate Serves(log: Log)
      reads fs, fs.storage, fs.partitions, fs.iterators
    {
      && fs.Valid() && Index(pid) < MAX_PARTITIONS
      && (if log.chain == [] then !fs.partitions[Index(pid)].hasFirstElement
          else Walkable(fs.storage[..], pid, fs.partitions[Index(pid)], log))
    }

    /** The iterator stands on the reachable element at index `i`. */
    ghost predicate StandsAt(log: Log, i: int)
      reads fs.iterators
    {
      && Index(pid) < fs.iterators.Length && 0 <= i < |Reachable(log)| && |Reachable(log)[i].data| < 0x1_0000
      && fs.iterators[Index(pid)] == At(pid, Reachable(log)[i])
    }

    /** The next element to be read is the one at index `i` of the reachable ones, if there is one. */
    ghost predicate Placed(log: Log, i: int)
      reads this, fs.iterators
    {
      if found then StandsAt(log, i) else StandsAt(log, i - 1)
    }

    /** Nothing but the iterator has changed. */
    twostate predicate OnlyMoved()
      reads fs, fs.storage, fs.partitions, fs.iterators
    {
      fs.storage[..] == old(fs.storage[..]) && fs.partitions[..] == old(fs.partitions[..]) && fs.trace == old(fs.trace)
    }

    constructor (fs: Filesystem.Store, pid: u16, decode: Decoder)
      ensures this.fs == fs && this.pid == pid && this.decode == decode && !found
    {
      this.fs, this.pid, this.decode := fs, pid, decode;
      found := false;
    }

    /** Initialise the iterator. */
    method Start(ghost log: Log) returns (ret: Ret)
      requires Serves(log)
      modifies fs`trace, fs.storage, fs.partitions, fs.iterators
      ensures Serves(log) && OnlyMoved()
      ensures log.chain == [] ==> ret == InvalidState && Index(pid) < fs.iterators.Length && !fs.iterators[Index(pid)].valid
      ensures log.chain != [] ==> ret == Success && Reachable(log) != [] && StandsAt(log, |Reachable(log)| - 1)
    {
      hide Walkable, FsSpec.IteratorInit, TotalSize, Regular, At, Reachable, Apply, AllFit, SameButMetadata;
      ghost var mem, p, it := fs.storage[..], fs.partitions[Index(pid)], fs.iterators[Index(pid)];
      if log.chain == [] {
        InitWithout(mem, pid, p, it);
      } else {
        InitOnLog(mem, pid, p, it, log);
      }
      ret := fs.IteratorInit(pid);
      ApplyNothing(mem);
      assert fs.partitions[..] == old(fs.partitions[..]) && fs.iterators[..][Index(pid)] == fs.iterators[Index(pid)];
    }

    /** Read the element under the iterator. */
    method ReadHere(ghost log: Log, ghost i: int) returns (ret: Ret, data: seq<byte>)
      requires Serves(log) && log.chain != [] && StandsAt(log, i)
      modifies fs`trace, fs.storage, fs.partitions, fs.iterators
      ensures Serves(log) && OnlyMoved() && StandsAt(log, i) && ret == Success && data == Reachable(log)[i].data
    {
      hide Walkable, IteratorRead, TotalSize, Regular, At, Reachable, Apply, AllFit, SameButMetadata;
      ghost var mem, p, it := fs.storage[..], fs.partitions[Index(pid)], fs.iterators[Index(pid)];
      OnReachable(mem, pid, p, log, it, i);
      var id;
      ret, data, id := fs.IteratorReadElement(pid);
      ApplyNothing(mem);
      assert fs.partitions[..] == old(fs.partitions[..]) && fs.iterators[..][Index(pid)] == fs.iterators[Index(pid)];
    }

    /** Step back. */
    method StepBack(ghost log: Log, ghost i: int) returns (ret: Ret)
      requires Serves(log) && log.chain != [] && StandsAt(log, i)
      modifies fs`trace, fs.storage, fs.partitions, fs.iterators
      ensures Serves(log) && OnlyMoved()
      ensures if i == 0 then ret == NotFound && StandsAt(log, i) else ret == Success && StandsAt(log, i - 1)
    {
      hide Walkable, FsSpec.IteratorPrevious, TotalSize, Regular, At, Reachable, Apply, AllFit, SameButMetadata;
      ghost var mem, p, it := fs.storage[..], fs.partitions[Index(pid)], fs.iterators[Index(pid)];
      OnReachable(mem, pid, p, log, it, i);
      ret := fs.IteratorPrevious(pid);
      ApplyNothing(mem);
      assert fs.partitions[..] == old(fs.partitions[..]) && fs.iterators[..][Index(pid)] == fs.iterators[Index(pid)];
    }

    /** Step on. */
    method StepOn(ghost log: Log, ghost i: int) returns (ret: Ret)
      requires Serves(log) && log.chain != [] && StandsAt(log, i)
      modifies fs`trace, fs.storage, fs.partitions, fs.iterators
      ensures Serves(log) && OnlyMoved()
      ensures if i + 1 == |Reachable(log)| then ret == NotFound && StandsAt(log, i) else ret == Success && StandsAt(log, i + 1)
    {
      hide Walkable, FsSpec.IteratorNext, TotalSize, Regular, At, Reachable, Apply, AllFit, SameButMetadata;
      ghost var mem, p, it := fs.storage[..], fs.partitions[Index(pid)], fs.iterators[Index(pid)];
      OnReachable(mem, pid, p, log, it, i);
      ret := fs.IteratorNext(pid);
      ApplyNothing(mem);
      assert fs.partitions[..] == old(fs.partitions[..]) && fs.iterators[..][Index(pid)] == fs.iterators[Index(pid)];
    }

    /** Invalidate the iterator. */
    method Invalidate(ghost log: Log)
      requires Serves(log)
      modifies fs.iterators
      ensures Serves(log) && OnlyMoved() && Index(pid) < fs.iterators.Length && !fs.iterators[Index(pid)].valid
    {
      hide Walkable, TotalSize, Regular;
      ghost var mem := fs.storage[..];
      fs.IteratorInvalidate(pid);
      ApplyNothing(mem);
      assert fs.partitions[..] == old(fs.partitions[..]) && fs.iterators[..][Index(pid)] == fs.iterators[Index(pid)];
    }

    /** `find_chunk_from_timestamp`: go back to the latest chunk that is older, and one step on. */
    method Find(time: nat, ghost log: Log) returns (ret: Ret)
      requires Serves(log)
      modifies this`found, fs`trace, fs.storage, fs.partitions, fs.iterators
      ensures Serves(log) && OnlyMoved()
      ensures log.chain == [] ==> ret == InvalidState && Index(pid) < fs.iterators.Length && !fs.iterators[Index(pid)].valid
      ensures log.chain != [] ==> ret == Success && Placed(log, Since(decode, Payloads(Reachable(log)), time))
    {
      hide Serves, StandsAt, Reachable, Since;
      found := false;
      ret := Start(log);
      if ret != Success {
        Invalidate(log);
        return;
      }
      ghost var ps := Payloads(Reachable(log));
      ghost var i := |ps| - 1;
      while true
        invariant Serves(log) && OnlyMoved() && log.chain != [] && !found
        invariant 0 <= i < |ps| && StandsAt(log, i)
        invariant forall k :: i < k < |ps| ==> !Older(decode, ps[k], time)
        decreases i
      {
        var data;
        ret, data := ReadHere(log, i);
        if ret == Success && decode(data).Chunk? && decode(data).time < time {
          ret := StepOn(log, i);
          found := ret == Success;
          ret := Success;
          SinceIs(decode, ps, time, i + 1);
          return;
        }
        ret := StepBack(log, i);
        if ret == NotFound {
          found := true;
          ret := Success;
          SinceIs(decode, ps, time, 0);
          return;
        }
        i := i - 1;
      }
    }

    /** `get_next_chunk`: the next chunk that can be decoded; if there is none, the iterator is invalidated. */
    method GetNext(ghost log: Log, ghost j: int) returns (ret: Ret, data: seq<byte>)
      requires Serves(log) && log.chain != [] && Placed(log, j) && 0 <= j <= |Reachable(log)|
      modifies this`found, fs`trace, fs.storage, fs.partitions, fs.iterators
      ensures Serves(log) && OnlyMoved()
      ensures var ps := Payloads(Reachable(log));
              var k := NextChunk(decode, ps, j);
        if k < |ps| then ret == Success && data == ps[k] && Placed(log, k + 1)
        else ret == NotFound && Index(pid) < fs.iterators.Length && !fs.iterators[Index(pid)].valid
    {
      hide Serves, StandsAt, Reachable, NextChunk;
      ghost var ps := Payloads(Reachable(log));
      ghost var i := j;
      while true
        invariant Serves(log) && OnlyMoved() && j <= i <= |ps| && Placed(log, i)
        invariant forall k :: j <= k < i ==> decode(ps[k]).Broken?
        decreases |ps| - i
      {
        NextChunkIs(decode, ps, j, i);
        if !found {
          ret := StepOn(log, i - 1);
          if ret != Success {
            Invalidate(log);
            data := [];
            return;
          }
        }
        IsReachable(log, i);
        found := false;
        ret, data := ReadHere(log, i);
        if decode(data).Chunk? {
          return;
        }
        i := i + 1;
      }
    }

    lemma IsReachable(log: Log, i: int)
      requires Serves(log) && StandsAt(log, i)
      ensures 0 <= i < |Reachable(log)|
    {
    }

    /** A request for all the data since a point in time: find the first chunk, and get the following ones one by one. */
    method CollectSince(time: nat, ghost log: Log) returns (chunks: seq<seq<byte>>)
      requires Serves(log)
      modifies this`found, fs`trace, fs.storage, fs.partitions, fs.iterators
      ensures Serves(log) && OnlyMoved() && Index(pid) < fs.iterators.Length && !fs.iterators[Index(pid)].valid
      ensures chunks == if log.chain == [] then []
                        else var ps := Payloads(Reachable(log)); Chunks(decode, ps[Since(decode, ps, time)..])
    {
      hide Serves, StandsAt, Reachable, NextChunk, Since, Chunks, Placed;
      chunks := [];
      var ret := Find(time, log);
      if ret != Success {
        return;
      }
      ghost var ps := Payloads(Reachable(log));
      ghost var i := Since(decode, ps, time);
      ghost var want := Chunks(decode, ps[i..]);
      while true
        invariant Serves(log) && OnlyMoved() && 0 <= i <= |ps| && Placed(log, i)
        invariant want == chunks + Chunks(decode, ps[i..])
        decreases |ps| - i
      {
        NextChunkFrom(decode, ps, i);
        ghost var k := NextChunk(decode, ps, i);
        var data;
        ret, data := GetNext(log, i);
        if ret != Success {
          return;
        }
        chunks := chunks + [data];
        i := k + 1;
      }
    }
  }

  /** The first payload from `j` on that can be decoded, or the end. */
  function NextChunk(decode: Decoder, ps: seq<seq<byte>>, j: nat): (k: nat)
    requires j <= |ps|
    ensures j <= k <= |ps|
    decreases |ps| - j
  {
    if j == |ps| || decode(ps[j]).Chunk? then j else NextChunk(decode, ps, j + 1)
  }

  lemma {:induction false} NextChunkIs(decode: Decoder, ps: seq<seq<byte>>, j: nat, i: nat)
    requires j <= i <= |ps| && forall k :: j <= k < i ==> decode(ps[k]).Broken?
    ensures NextChunk(decode, ps, j) >= i
    ensures i == |ps| || decode(ps[i]).Chunk? ==> NextChunk(decode, ps, j) == i
    decreases i - j
  {
    if j < i {
      NextChunkIs(decode, ps, j + 1, i);
    }
  }

  lemma {:induction false} NextChunkFrom(decode: Decoder, ps: seq<seq<byte>>, j: nat)
    requires j <= |ps|
    ensures var k := NextChunk(decode, ps, j);
      Chunks(decode, ps[j..]) == if k == |ps| then [] else [ps[k]] + Chunks(decode, ps[k + 1..])
    decreases |ps| - j
  {
    if j < |ps| {
      assert ps[j..][1..] == ps[j + 1..];
      if decode(ps[j]).Broken? {
        NextChunkFrom(decode, ps, j + 1);
      }
    }
  }

  lemma InitWithout(mem: seq<byte>, pid: u16, p: Partition, it: Iterator)
    requires !p.hasFirstElement
    ensures FsSpec.IteratorInit(mem, pid, p, it) == Outcome(InvalidState, p, it.(valid := false), [])
  {
  }

  // ---- in any run ----

  /** From the latest element a step forward finds nothing, exactly if the lap is no multiple of the record identifiers. */
  lemma NothingBehindIff(mem: seq<byte>, pid: u16, p: Partition, log: Log)
    requires LogInv(mem, pid, p, log)
    ensures log.chain != [] && |Last(log.chain).data| < 0x1_0000
    ensures var here := At(pid, Last(log.chain));
      && (IteratorNext(mem, pid, p, here) == Outcome(NotFound, p, here, []) <==> |log.chain| % RECORD_IDS != 0)
      && (IteratorNext(mem, pid, p, here).ret == Success <==> |log.chain| % RECORD_IDS == 0)
  {
    LastReachable(mem, pid, p, log);
    NothingBehindLatest(mem, pid, p, log);
    LogConsecutive(mem, pid, p, log);
    hide LogInv, IteratorNext, At, IncrementRecordId, WellFormed;
    LapIds(log);
  }

  lemma LapIds(log: Log)
    requires log.chain != [] && Consecutive(All(log)) && forall i :: 0 <= i < |All(log)| ==> WellFormed(All(log)[i])
    ensures log.chain[0].id == IncrementRecordId(Last(log.chain).id) <==> |log.chain| % RECORD_IDS == 0
  {
    hide IncrementRecordId, RecordIdAfter;
    var k, n := |log.older|, |log.chain|;
    assert All(log)[k] == log.chain[0];
    forall i | 0 < i < n ensures log.chain[i].id == IncrementRecordId(log.chain[i - 1].id) {
      assert All(log)[k + i] == log.chain[i] && All(log)[k + i - 1] == log.chain[i - 1];
    }
    assert Consecutive(log.chain);
    IdsAlong(log.chain, n - 1);
    IncrementIsAfter(log.chain[0].id, n - 1);
    AfterIsSame(log.chain[0].id, n);
  }

  /** A ring that keeps all it has room for is walkable, unless its lap is a multiple of the record identifiers. */
  lemma RingIsWalkable(mem: seq<byte>, pid: u16, p: Partition, log: Log, hist: seq<seq<byte>>, it: Iterator)
    requires PartHolds(mem, pid, p, log, hist) && hist != [] && !IsDynamic(pid) && Slots(pid, p) > 0
    requires KeepsAll(Slots(pid, p), |hist|) && (Position(|hist|, Slots(pid, p)) + 1) % RECORD_IDS != 0
    ensures Walkable(mem, pid, p, log)
    ensures |hist| >= Min(|hist|, Slots(pid, p))
    ensures Payloads(Reachable(log)) == hist[|hist| - Min(|hist|, Slots(pid, p))..]
  {
    hide *;
    HoldsLog(mem, pid, p, log, hist);
    HoldsSuffix(mem, pid, p, log, hist);
    LapOfRing(pid, p, log, |hist|);
    RingIsExactIff(mem, pid, p, it, log, |hist|);
    OldestEndsWalk(mem, pid, p, log, |hist|);
    NothingBehindIff(mem, pid, p, log);
    WalkableMeans(mem, pid, p, log);
    SuffixIs(hist, Reachable(log));
  }

  lemma WalkableMeans(mem: seq<byte>, pid: u16, p: Partition, log: Log)
    requires LogInv(mem, pid, p, log)
    requires Reachable(log) != [] && |Reachable(log)[0].data| < 0x1_0000 && log.chain != [] && |Last(log.chain).data| < 0x1_0000
    requires var e := Reachable(log)[0]; IteratorPrevious(mem, pid, p, At(pid, e)) == Outcome(NotFound, p, At(pid, e), [])
    requires var e := Last(log.chain); IteratorNext(mem, pid, p, At(pid, e)) == Outcome(NotFound, p, At(pid, e), [])
    ensures Walkable(mem, pid, p, log)
  {
    hide LogInv, IteratorPrevious, IteratorNext, Reachable, At;
  }

  lemma HoldsSuffix(mem: seq<byte>, pid: u16, p: Partition, log: Log, hist: seq<seq<byte>>)
    requires PartHolds(mem, pid, p, log, hist)
    ensures EndsWith(hist, Payloads(Reachable(log)))
  {
    ReachableIsSuffix(log, hist);
    hide PartInv, EndsWith, Payloads;
  }

  lemma LapOfRing(pid: u16, p: Partition, log: Log, n: nat)
    requires RingInv(pid, p, log, n)
    ensures Slots(pid, p) > 0 && n > 0 && |log.chain| == Position(n, Slots(pid, p)) + 1
  {
    hide Slots, SlotAddress, Position;
  }

  lemma SuffixIs(hist: seq<seq<byte>>, r: seq<Elem>)
    requires EndsWith(hist, Payloads(r))
    ensures |r| <= |hist| && Payloads(r) == hist[|hist| - |r|..]
  {
  }

  /**
   * After any run of operations on all partitions, restarts included, a request for the data since `time` can be served
   * from a static partition: `CollectSince` then yields, oldest first, the chunks of the payloads stored last, as many as
   * there are slots, from behind the latest one that is older.
   */
  lemma RunsServe(g: Geometry, s: System, reqs: seq<Request>, logs: seq<Log>, hists: seq<seq<seq<byte>>>, actions: seq<Action>,
                  t: System, hists': seq<seq<seq<byte>>>, i: nat)
    returns (log: Log)
    requires SysInv(g, s, reqs, logs, hists) && Sized(g, s) && Leads(g, reqs, s, hists, actions, t, hists')
    requires i < |reqs| && i < MAX_PARTITIONS && !reqs[i].dynamic && i < |hists'| && hists'[i] != [] && i < |t.parts|
    requires var slots := Slots(HandleOf(i, reqs[i]), t.parts[i]);
             slots > 0 && KeepsAll(slots, |hists'[i]|) && (Position(|hists'[i]|, slots) + 1) % RECORD_IDS != 0
    ensures Walkable(t.mem, HandleOf(i, reqs[i]), t.parts[i], log)
    ensures var hist, slots := hists'[i], Slots(HandleOf(i, reqs[i]), t.parts[i]);
      && Min(|hist|, slots) <= |hist| && Payloads(Reachable(log)) == hist[|hist| - Min(|hist|, slots)..]
  {
    hide SysInv, Sized, Leads, PartHolds, HandleOf, Slots, KeepsAll, Position, Walkable, Payloads, Reachable;
    var logs' := RunsKeep(g, s, reqs, logs, hists, actions, t, hists');
    HoldsInRun(g, t, reqs, logs', hists', i);
    log := logs'[i];
    var pid := HandleOf(i, reqs[i]);
    var it := Iterator(0, 0, NO_HEADER, false);
    RingIsWalkable(t.mem, pid, t.parts[i], log, hists'[i], it);
  }
}
