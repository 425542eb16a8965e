/** The byte ring that keeps the most recent bytes and never overwrites what is being read (circular_fifo_lib.c). */
module CircularFifo {
  import opened Bytes
  import Units
  import opened Rings

  /** The last `n` of `s`, or all of it. */
  function Latest<T>(s: seq<T>, n: nat): (r: seq<T>)
    ensures |r| == if |s| <= n then |s| else n
    ensures r == s[|s| - |r|..]
  {
    if |s| <= n then s else s[|s| - n..]
  }

  /** The first `n` of `s`, or all of it. */
  function First<T>(s: seq<T>, n: nat): (r: seq<T>)
    ensures |r| == if |s| <= n then |s| else n
  {
    if |s| <= n then s else s[..n]
  }

  lemma FirstOfFirst<T>(a: seq<T>, b: seq<T>, n: nat)
    ensures First(First(a, n) + b, n) == First(a + b, n)
  {
    if |a| > n {
      assert (a[..n] + b)[..n] == (a + b)[..n];
    }
  }

  lemma WithinCapacity<T>(a: seq<T>, n: nat)
    requires |a| <= n
    ensures First(a, n) == a && Latest(a, n) == a
  {
  }

  /** What of `more` the first `n` of `here + more` still hold. */
  function Admitted<T>(here: seq<T>, more: seq<T>, n: nat): seq<T> {
    if |here| <= n then First(more, n - |here|) else []
  }

  /** The first of some lists, and the others. */
  function Head<T>(lists: seq<seq<T>>): seq<T> { if lists == [] then [] else lists[0] }

  function Tail<T>(lists: seq<seq<T>>): (r: seq<seq<T>>)
    ensures |r| == if lists == [] then 0 else |lists| - 1
  {
    if lists == [] then [] else lists[1..]
  }

  /** What is taken in while at most `n` are read: in front of each, as much of the next list as there is room for. */
  function TakenIn<T>(here: seq<T>, lists: seq<seq<T>>, n: nat, capacity: nat): seq<T>
    decreases n
  {
    if n == 0 then []
    else
      var more := Admitted(here, Head(lists), capacity);
      more + if here + more == [] then [] else TakenIn((here + more)[1..], Tail(lists), n - 1, capacity)
  }

  function Rest<T>(lists: seq<seq<T>>, i: nat): seq<seq<T>> { if i <= |lists| then lists[i..] else [] }

  lemma TakenInNone<T>(here: seq<T>, lists: seq<seq<T>>, capacity: nat)
    ensures TakenIn(here, lists, 0, capacity) == []
  {
  }

  lemma RestIsAll<T>(lists: seq<seq<T>>)
    ensures Rest(lists, 0) == lists
  {
  }

  lemma TakenInUnfolds<T>(here: seq<T>, lists: seq<seq<T>>, i: nat, n: nat, capacity: nat)
    ensures var more := Admitted(here, Head(Rest(lists, i)), capacity);
      n > 0 ==>
        TakenIn(here, Rest(lists, i), n, capacity)
        == more + (if here + more == [] then [] else TakenIn((here + more)[1..], Rest(lists, i + 1), n - 1, capacity))
    ensures Head(Rest(lists, i)) == if i < |lists| then lists[i] else []
    ensures Admitted(here, [], capacity) == []
  {
    assert Tail(Rest(lists, i)) == Rest(lists, i + 1);
    hide Admitted;
  }

  lemma {:induction false} NothingTakenIn(here: seq<byte>, n: nat, capacity: nat)
    ensures TakenIn(here, [], n, capacity) == []
    decreases n
  {
    assert Admitted(here, [], capacity) == [];
    if n > 0 && here + [] != [] {
      NothingTakenIn((here + [])[1..], n - 1, capacity);
    }
  }

  /** With room for everything nothing of the lists is lost: they are taken in one behind the other, from the first on. */
  lemma {:induction false} AllTakenIn(here: seq<byte>, lists: seq<seq<byte>>, n: nat, capacity: nat) returns (k: nat)
    requires |here| + |Join(lists)| <= capacity
    ensures k <= |lists| && k <= n && TakenIn(here, lists, n, capacity) == Join(lists[..k])
    ensures n > 0 && lists != [] ==> k > 0
    ensures k < |lists| && k < n ==> k == |here + Join(lists[..k])| + 1
    decreases n
  {
    k := 0;
    if n > 0 && lists != [] {
      JoinHead(lists);
      var more := lists[0];
      assert Admitted(here, more, capacity) == more;
      hide Admitted;
      var k' := 0;
      if here + more != [] {
        k' := AllTakenIn((here + more)[1..], lists[1..], n - 1, capacity);
      }
      k := k' + 1;
      JoinHead(lists[..k]);
      assert lists[..k][1..] == lists[1..][..k'];
    } else {
      NothingTakenIn(here, n, capacity);
      assert lists[..0] == [];
    }
  }

  lemma {:induction false} JoinHead(es: seq<seq<byte>>)
    ensures es != [] ==> Join(es) == es[0] + Join(es[1..])
    decreases |es|
  {
    if |es| > 1 {
      var n := |es| - 1;
      JoinHead(es[..n]);
      assert es[..n][1..] == es[1..][..n - 1] && es[1..][n - 1] == es[n];
    } else if |es| == 1 {
      assert es[..0] == [] && es[1..] == [];
    }
  }

  lemma FirstIsAdmitted<T>(here: seq<T>, more: seq<T>, n: nat)
    requires |here| <= n
    ensures First(here + more, n) == here + Admitted(here, more, n)
  {
  }

  lemma Regroup<T>(a: seq<T>, b: seq<T>, c: seq<T>)
    ensures a + (b + c) == a + b + c
  {
  }

  lemma FirstBytes<T>(a: seq<T>, b: seq<T>, n: nat)
    requires |a| <= n && (|a| < n ==> b == [])
    ensures First(a + b, n) == a
  {
  }

  // ---- whole elements ----

  predicate AllOfSize(es: seq<seq<byte>>, k: nat) { forall e <- es :: |e| == k }

  function Join(es: seq<seq<byte>>): seq<byte> { if es == [] then [] else Join(es[..|es| - 1]) + es[|es| - 1] }

  lemma {:induction false} JoinSize(es: seq<seq<byte>>, k: nat)
    requires AllOfSize(es, k)
    ensures |Join(es)| == |es| * k
    decreases |es|
  {
    if es != [] {
      assert forall e <- es[..|es| - 1] :: e in es;
      JoinSize(es[..|es| - 1], k);
      assert |es| * k == (|es| - 1) * k + k;
    }
  }

  lemma {:induction false} JoinInTwo(a: seq<seq<byte>>, b: seq<seq<byte>>)
    ensures Join(a + b) == Join(a) + Join(b)
    decreases |b|
  {
    if b == [] {
      assert a + b == a;
    } else {
      var n := |b| - 1;
      assert (a + b)[..|a + b| - 1] == a + b[..n] && (a + b)[|a + b| - 1] == b[n];
      JoinInTwo(a, b[..n]);
      assert Join(a + b) == Join(a + b[..n]) + b[n] && Join(b) == Join(b[..n]) + b[n];
    }
  }

  /** The latest bytes of whole elements are the latest whole elements, and the first bytes the first ones. */
  lemma WholeElements(es: seq<seq<byte>>, k: nat, n: nat)
    requires AllOfSize(es, k)
    ensures Latest(Join(es), n * k) == Join(Latest(es, n))
    ensures First(Join(es), n * k) == Join(First(es, n))
  {
    hide Join, AllOfSize;
    JoinSize(es, k);
    if |es| <= n {
      Units.MulMonotone(|es|, n, k);
    } else {
      Units.MulMonotone(n, |es|, k);
      var a, b := es[..|es| - n], es[|es| - n..];
      var c, d := es[..n], es[n..];
      assert a + b == es && c + d == es;
      PartsOfSize(es, k, |es| - n);
      PartsOfSize(es, k, n);
      JoinInTwo(a, b);
      JoinInTwo(c, d);
      JoinSize(b, k);
      JoinSize(c, k);
    }
  }

  lemma PartsOfSize(es: seq<seq<byte>>, k: nat, i: nat)
    requires AllOfSize(es, k) && i <= |es|
    ensures AllOfSize(es[..i], k) && AllOfSize(es[i..], k)
  {
  }

  /** Whether `n` bytes of capacity hold whole elements, whatever is written. */
  ghost predicate KeepsWhole(n: nat, k: nat)
    requires k > 0
  {
    forall es: seq<seq<byte>> :: AllOfSize(es, k) ==> |Latest(Join(es), n)| % k == 0
  }

  /** Exactly the multiples of the element size do. */
  lemma KeepsWholeIffMultiple(n: nat, k: nat)
    requires k > 0
    ensures KeepsWhole(n, k) <==> n % k == 0
  {
    if n % k == 0 {
      forall es: seq<seq<byte>> | AllOfSize(es, k) ensures |Latest(Join(es), n)| % k == 0 {
        JoinSize(es, k);
        Units.MultipleOf(|es|, k);
      }
    } else {
      var es := seq(n + 1, i => Repeat(0, k));
      assert AllOfSize(es, k);
      JoinSize(es, k);
      Units.MulMonotone(1, k, n + 1);
      assert |Latest(Join(es), n)| == n;
    }
  }

  // ---- runs of calls ----

  datatype Call = Writes(data: seq<byte>) | Reads(n: nat) | Flushes

  /** What calls that do not interrupt each other leave in a ring of the given capacity. */
  function ContentAfter(calls: seq<Call>, capacity: nat): seq<byte> {
    if calls == [] then []
    else
      var c := ContentAfter(calls[..|calls| - 1], capacity);
      match calls[|calls| - 1]
      case Writes(data) => Latest(c + data, capacity)
      case Reads(n) => c[|First(c, n)|..]
      case Flushes => []
  }

  function AllWritten(calls: seq<Call>): seq<byte> {
    if calls == [] then []
    else
      AllWritten(calls[..|calls| - 1]) + match calls[|calls| - 1] case Writes(data) => data case _ => []
  }

  /** Whatever the calls: the content is what was written last, in order and without gaps. */
  lemma {:induction false} ContentIsLatest(calls: seq<Call>, capacity: nat)
    ensures |ContentAfter(calls, capacity)| <= capacity
    ensures ContentAfter(calls, capacity) == Latest(AllWritten(calls), |ContentAfter(calls, capacity)|)
    decreases |calls|
  {
    if calls != [] {
      var before := calls[..|calls| - 1];
      ContentIsLatest(before, capacity);
      var c, all := ContentAfter(before, capacity), AllWritten(before);
      match calls[|calls| - 1] {
        case Writes(data) => SuffixGrows(c, all, data, capacity);
        case Reads(n) =>
          assert all + [] == all;
          SuffixOfSuffix(c, all, |First(c, n)|);
        case Flushes => assert all + [] == all;
      }
    }
  }

  lemma SuffixGrows(c: seq<byte>, all: seq<byte>, data: seq<byte>, n: nat)
    requires c == Latest(all, |c|) && |c| <= n
    ensures var r := Latest(c + data, n); |r| <= n && r == Latest(all + data, |r|)
  {
    var r := Latest(c + data, n);
    assert c + data == (all + data)[|all| - |c|..];
    SuffixOfSuffix(c + data, all + data, |c + data| - |r|);
  }

  lemma SuffixOfSuffix(c: seq<byte>, all: seq<byte>, d: nat)
    requires |c| <= |all| && c == all[|all| - |c|..] && d <= |c|
    ensures c[d..] == Latest(all, |c| - d)
  {
    assert c[d..] == all[|all| - |c| + d..];
  }

  // ---- a full ring ----

  /** A full ring: the oldest byte makes room for the new one. */
  lemma RingPutFull(s: seq<byte>, r: nat, w: nat, b: byte)
    requires r < |s| && w < |s| && After(w, |s|) == r
    ensures Ring(s[w := b], After(r, |s|), r) == Latest(Ring(s, r, w) + [b], |s| - 1)
  {
    hide Ring, Latest;
    RingIsEmpty(s, r, w);
    if |s| == 1 {
      RingIsEmpty(s[w := b], 0, 0);
      assert |Latest(Ring(s, r, w) + [b], 0)| == 0;
    } else {
      RingGet(s, r, w);
      RingPut(s, After(r, |s|), w, b);
    }
  }

  // ---- the ring ----

  lemma OneMoreByte(before: seq<byte>, data: seq<byte>, i: nat, n: nat)
    requires i < |data|
    ensures Latest(Latest(before + data[..i], n) + [data[i]], n) == Latest(before + data[..i + 1], n)
    ensures First(First(before + data[..i], n) + [data[i]], n) == First(before + data[..i + 1], n)
  {
    hide First, Latest;
    assert before + data[..i + 1] == (before + data[..i]) + [data[i]];
    FirstOfFirst(before + data[..i], [data[i]], n);
  }

  class Fifo {
    const buf: array<byte>
    const capacity: nat
    var readPos: nat
    var writePos: nat
    var readFlag: bool

    ghost predicate Valid()
      reads this
    {
      buf.Length == capacity + 1 && readPos <= capacity && writePos <= capacity
    }

    /** The bytes written and not read yet, oldest first. */
    ghost function Content(): (r: seq<byte>)
      requires Valid()
      reads this, buf
      ensures |r| <= capacity
    {
      Ring(buf[..], readPos, writePos)
    }

    constructor (capacity: nat)
      ensures Valid() && this.capacity == capacity && Content() == [] && !readFlag && fresh(buf)
    {
      this.capacity := capacity;
      buf := new byte[capacity + 1](_ => 0);
      readPos, writePos, readFlag := 0, 0, false;
    }

    method Flush()
      requires Valid()
      modifies `readPos
      ensures Valid() && Content() == []
    {
      readPos := writePos;
    }

    method Get() returns (found: bool, b: byte)
      requires Valid()
      modifies `readPos
      ensures Valid() && (found <==> old(Content()) != [])
      ensures if found then [b] + Content() == old(Content()) else Content() == []
    {
      hide Ring;
      found, b := false, 0;
      RingIsEmpty(buf[..], readPos, writePos);
      if readPos != writePos {
        RingGet(buf[..], readPos, writePos);
        b := buf[readPos];
        AfterIsModulo(readPos, capacity + 1);
        readPos := (readPos + 1) % (capacity + 1);
        found := true;
      }
    }

    /** A full ring drops its oldest byte, or, while it is being read, the new one. */
    method Put(b: byte)
      requires Valid()
      modifies `readPos, `writePos, buf
      ensures Valid() && readFlag == old(readFlag)
      ensures old(readFlag) ==> readPos == old(readPos) && Content() == First(old(Content()) + [b], capacity)
      ensures !old(readFlag) ==> Content() == Latest(old(Content()) + [b], capacity)
    {
      hide Ring;
      ghost var s, before := buf[..], Content();
      RingIsEmpty(s, readPos, writePos);
      AfterIsModulo(writePos, capacity + 1);
      AfterIsModulo(readPos, capacity + 1);
      var next := (writePos + 1) % (capacity + 1);
      if next == readPos {
        if readFlag {
          assert First(before + [b], capacity) == before;
          return;
        }
        RingPutFull(s, readPos, writePos, b);
        readPos := (readPos + 1) % (capacity + 1);
      } else {
        RingPut(s, readPos, writePos, b);
      }
      buf[writePos] := b;
      writePos := next;
      assert buf[..] == s[old(writePos) := b];
    }

    /** What a write leaves: the most recent bytes that fit. */
    method Write(data: seq<byte>)
      requires Valid()
      modifies `readPos, `writePos, buf
      ensures Valid() && readFlag == old(readFlag)
      ensures old(readFlag) ==> readPos == old(readPos) && Content() == First(old(Content()) + data, capacity)
      ensures !old(readFlag) ==> Content() == Latest(old(Content()) + data, capacity)
    {
      hide First, Latest, Ring;
      ghost var before := Content();
      var index := 0;
      assert before + data[..0] == before;
      WithinCapacity(before, capacity);
      while index < |data|
        invariant 0 <= index <= |data| && Valid() && readFlag == old(readFlag)
        invariant readFlag ==> readPos == old(readPos) && Content() == First(before + data[..index], capacity)
        invariant !readFlag ==> Content() == Latest(before + data[..index], capacity)
      {
        OneMoreByte(before, data, index, capacity);
        Put(data[index]);
        index := index + 1;
      }
      assert data[..|data|] == data;
    }

    /** An interrupt, if there is one, and then one byte. */
    method ReadOne(interrupts: seq<seq<byte>>, index: nat) returns (found: bool, b: byte, ghost more: seq<byte>)
      requires Valid() && readFlag
      modifies `readPos, `writePos, buf
      ensures Valid() && readFlag && more == Admitted(old(Content()), Head(Rest(interrupts, index)), capacity)
      ensures found <==> old(Content()) + more != []
      ensures found ==> old(Content()) + more == [b] + Content()
      ensures !found ==> Content() == []
    {
      hide First, Latest, Ring, Admitted, Distance;
      TakenInUnfolds(Content(), interrupts, index, 0, capacity);
      more := Admitted(Content(), Head(Rest(interrupts, index)), capacity);
      assert Content() + [] == Content();
      if index < |interrupts| {
        FirstIsAdmitted(Content(), interrupts[index], capacity);
        Write(interrupts[index]);
      }
      found, b := Get();
    }

    /**
     * A read of at most `n` bytes, interrupted by writes before each byte. What is read, and then what is left, is what was
     * there, and then as much of the interrupting writes as had room: nothing is overwritten while it is being read.
     */
    method Read(n: nat, interrupts: seq<seq<byte>>) returns (data: seq<byte>, ghost accepted: seq<byte>)
      requires Valid() && !readFlag
      modifies this, buf
      ensures Valid() && !readFlag && |data| <= n
      ensures data + Content() == old(Content()) + accepted
      ensures accepted == TakenIn(old(Content()), interrupts, n, capacity)
      ensures |interrupts| == 0 ==> accepted == [] && data == First(old(Content()), n)
      ensures |data| < n ==> Content() == []
    {
      hide First, Latest, Ring, Admitted, Distance, TakenIn, Rest, Head;
      readFlag := true;
      data, accepted := [], [];
      ghost var before := Content();
      ghost var all := TakenIn(before, interrupts, n, capacity);
      RestIsAll(interrupts);
      var index := 0;
      while index < n
        invariant 0 <= index <= n && index == |data| && Valid() && readFlag
        invariant data + Content() == before + accepted
        invariant |interrupts| == 0 ==> accepted == []
        invariant accepted + TakenIn(Content(), Rest(interrupts, index), n - index, capacity) == all
        decreases n - index
      {
        TakenInUnfolds(Content(), interrupts, index, n - index, capacity);
        ghost var here := Content();
        var found, b;
        ghost var more;
        found, b, more := ReadOne(interrupts, index);
        Regroup(data, here, more);
        Regroup(before, accepted, more);
        if !found {
          assert accepted + (more + []) == accepted + more;
          accepted := accepted + more;
          break;
        }
        assert (here + more)[1..] == Content();
        Regroup(accepted, more, TakenIn(Content(), Rest(interrupts, index + 1), n - index - 1, capacity));
        Regroup(data, [b], Content());
        accepted := accepted + more;
        data := data + [b];
        index := index + 1;
      }
      readFlag := false;
      TakenInNone(Content(), Rest(interrupts, index), capacity);
      assert before + [] == before && accepted + [] == accepted;
      FirstBytes(data, Content(), n);
    }

    method GetSize() returns (n: nat)
      requires Valid()
      ensures n == |Content()|
    {
      if writePos >= readPos {
        n := writePos - readPos;
      } else {
        n := capacity + 1 - readPos + writePos;
      }
    }
  }
}
