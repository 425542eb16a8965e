/** Which stores get by without an erasure: those behind the end of an earlier one that is remembered (storage1_lib.c). */
module Storage1Exempt {
  import opened Bytes
  import opened Flash
  import opened Storage1
  import opened Units

  /** `t` is remembered in slot `i`, and nothing else on its page is. */
  predicate HeldAt(page: nat, table: seq<int>, t: nat, i: nat)
    requires page > 0
  {
    && i < |table| && table[i] == t
    && forall k :: 0 <= k < |table| && k != i && table[k] >= 0 ==> PageNo(page, table[k]) != PageNo(page, t)
  }

  ghost predicate Held(page: nat, table: seq<int>, t: nat)
    requires page > 0
  {
    exists i: nat :: HeldAt(page, table, t, i)
  }

  /** Nothing on the page of `t` is remembered. */
  predicate Forgotten(page: nat, table: seq<int>, t: nat)
    requires page > 0
  {
    forall k :: 0 <= k < |table| && table[k] >= 0 ==> PageNo(page, table[k]) != PageNo(page, t)
  }

  /** The store has data, and some of it lies on the page of `t`. */
  predicate Touches(page: nat, w: WriteOp, t: nat)
    requires page > 0
  {
    w.data != [] && PageNo(page, w.address) <= PageNo(page, t) <= PageNo(page, w.address + |w.data| - 1)
  }

  /** The table after a store, refused or not. */
  ghost predicate Became(page: nat, size: nat, before: seq<int>, after: seq<int>, w: WriteOp)
    requires page > 0
  {
    if w.address + |w.data| > size || w.data == [] then after == before
    else Updated(page, before, after, w.address, |w.data|)
  }

  // ---- what is remembered after a store ----

  /** The end of a store is remembered, alone on its page. */
  lemma EndIsHeld(page: nat, before: seq<int>, after: seq<int>, address: nat, n: nat)
    requires page > 0 && n > 0 && Updated(page, before, after, address, n)
    requires (address + n) % page != 0
    ensures Held(page, after, address + n - 1)
  {
    var end := address + n - 1;
    NotTheLast(page, end);
    PageOrder(page, address, end);
    hide PageNo, PageStart, PageEnd, EndsPage;
    var dropped := DroppedAll(page, before, PageNo(page, address), PageNo(page, end));
    hide DroppedAll;
    var index: nat :| ChosenSlot(dropped, end, index) && after == dropped[index := end];
    forall k | 0 <= k < |after| && k != index && after[k] >= 0 ensures PageNo(page, after[k]) != PageNo(page, end) {
      assert dropped[k] == Dropped(page, before[k], PageNo(page, address), PageNo(page, end));
    }
    assert HeldAt(page, after, end, index);
  }

  lemma NotTheLast(page: nat, end: nat)
    requires page > 0
    ensures EndsPage(page, end) <==> (end + 1) % page == 0
  {
    var q, r := end / page, end % page;
    if r == page - 1 {
      DivisionUnique(end + 1, page, q + 1, 0);
    } else {
      DivisionUnique(end + 1, page, q, r + 1);
    }
  }

  /**
   * A store that leaves the page alone puts its own end in the place of `t` if no slot is free once the entries on its pages
   * are dropped, its end is not the last address of a page, and `t` is the closest entry in front of that end - or, with no
   * entry in front of it, the one in slot 0.
   */
  ghost predicate Evicts(page: nat, table: seq<int>, w: WriteOp, t: nat)
    requires page > 0
  {
    var end := w.address + |w.data| - 1;
    && w.data != [] && (w.address + |w.data|) % page != 0
    && (forall k :: 0 <= k < |table| ==> table[k] >= 0 && !Touches(page, w, table[k]))
    && if exists k :: 0 <= k < |table| && table[k] < end
       then t < end && forall k :: 0 <= k < |table| && table[k] < end ==> table[k] <= t
       else |table| > 0 && table[0] == t
  }

  lemma KeptOrFree(page: nat, table: seq<int>, first: nat, last: nat, w: WriteOp)
    requires page > 0 && w.data != []
    requires first == PageNo(page, w.address) && last == PageNo(page, w.address + |w.data| - 1)
    requires forall k :: 0 <= k < |table| ==> table[k] >= FREE
    ensures var dropped := DroppedAll(page, table, first, last);
      forall k :: 0 <= k < |table| ==>
        dropped[k] == if table[k] >= 0 && !Touches(page, w, table[k]) then table[k] else FREE
  {
    hide PageNo;
    var dropped := DroppedAll(page, table, first, last);
    forall k | 0 <= k < |table|
      ensures dropped[k] == if table[k] >= 0 && !Touches(page, w, table[k]) then table[k] else FREE
    {
    }
  }

  /** What is remembered of a page that a store leaves alone stays remembered, unless it is evicted. */
  lemma StaysIff(page: nat, before: seq<int>, after: seq<int>, w: WriteOp, t: nat)
    requires page > 0 && w.data != [] && Held(page, before, t) && !Touches(page, w, t)
    requires forall k :: 0 <= k < |before| ==> before[k] >= FREE
    requires Updated(page, before, after, w.address, |w.data|)
    ensures if Evicts(page, before, w, t) then Forgotten(page, after, t) else Held(page, after, t)
  {
    var i: nat :| HeldAt(page, before, t, i);
    var end := w.address + |w.data| - 1;
    NotTheLast(page, end);
    var first, last := PageNo(page, w.address), PageNo(page, end);
    PageOrder(page, w.address, end);
    KeptOrFree(page, before, first, last, w);
    var dropped := DroppedAll(page, before, first, last);
    hide DroppedAll, PageNo, EndsPage, PageStart, PageEnd;
    assert PageNo(page, end) != PageNo(page, t);
    assert HeldAt(page, dropped, t, i);
    if EndsPage(page, end) {
      assert Held(page, after, t);
    } else {
      var index: nat :| ChosenSlot(dropped, end, index) && after == dropped[index := end];
      OneSlot(page, dropped, end, index, t, i);
      if index == i {
        EvictedSlot(page, before, dropped, w, t, i);
      } else {
        assert HeldAt(page, after, t, i);
        SparedSlot(page, before, dropped, w, t, i, index);
      }
    }
  }

  lemma OneSlot(page: nat, dropped: seq<int>, end: nat, index: nat, t: nat, i: nat)
    requires page > 0 && HeldAt(page, dropped, t, i) && index < |dropped| && PageNo(page, end) != PageNo(page, t)
    ensures if index == i then Forgotten(page, dropped[index := end], t) else HeldAt(page, dropped[index := end], t, i)
  {
    hide PageNo;
  }

  predicate DroppedFor(page: nat, before: seq<int>, dropped: seq<int>, w: WriteOp)
    requires page > 0
  {
    && |dropped| == |before|
    && forall k :: 0 <= k < |before| ==>
         dropped[k] == if before[k] >= 0 && !Touches(page, w, before[k]) then before[k] else FREE
  }

  lemma EvictedSlot(page: nat, before: seq<int>, dropped: seq<int>, w: WriteOp, t: nat, i: nat)
    requires page > 0 && w.data != [] && DroppedFor(page, before, dropped, w) && HeldAt(page, dropped, t, i)
    requires (w.address + |w.data|) % page != 0
    requires ChosenSlot(dropped, w.address + |w.data| - 1, i)
    ensures Evicts(page, before, w, t)
  {
    hide PageNo, Touches;
    var end := w.address + |w.data| - 1;
    assert dropped[i] == t != FREE;
    forall k | 0 <= k < |before| ensures before[k] >= 0 && !Touches(page, w, before[k]) && dropped[k] == before[k] {
      assert dropped[k] != FREE;
    }
    assert dropped == before;
  }

  lemma SameIfFull(page: nat, before: seq<int>, dropped: seq<int>, w: WriteOp)
    requires page > 0 && DroppedFor(page, before, dropped, w)
    requires forall k :: 0 <= k < |before| ==> before[k] >= 0 && !Touches(page, w, before[k])
    ensures dropped == before
  {
    hide Touches;
  }

  lemma SparedSlot(page: nat, before: seq<int>, dropped: seq<int>, w: WriteOp, t: nat, i: nat, index: nat)
    requires page > 0 && w.data != [] && DroppedFor(page, before, dropped, w) && HeldAt(page, dropped, t, i)
    requires ChosenSlot(dropped, w.address + |w.data| - 1, index) && index != i
    ensures !Evicts(page, before, w, t)
  {
    hide Touches, PageNo;
    if forall k :: 0 <= k < |before| ==> before[k] >= 0 && !Touches(page, w, before[k]) {
      SameIfFull(page, before, dropped, w);
    }
  }

  // ---- over a run of stores ----

  /** The tables before, between and after some stores. */
  ghost predicate Tables(page: nat, size: nat, tables: seq<seq<int>>, stores: seq<WriteOp>)
    requires page > 0
  {
    && |tables| == |stores| + 1 && (forall j :: 0 <= j < |tables| ==> IsTable(size, tables[j]))
    && forall j :: 0 <= j < |stores| ==> Became(page, size, tables[j], tables[j + 1], stores[j])
  }

  /** One of the stores that fit evicts `t`. */
  ghost predicate EvictedIn(page: nat, size: nat, tables: seq<seq<int>>, stores: seq<WriteOp>, t: nat)
    requires page > 0 && |tables| >= |stores|
  {
    exists j :: 0 <= j < |stores| && stores[j].address + |stores[j].data| <= size && Evicts(page, tables[j], stores[j], t)
  }

  predicate NoneTouches(page: nat, stores: seq<WriteOp>, t: nat)
    requires page > 0
  {
    forall j :: 0 <= j < |stores| ==> !Touches(page, stores[j], t)
  }

  /** Stores on other pages: what is remembered stays remembered until one of them evicts it, and then it is gone. */
  lemma {:induction false} RunStaysIff(page: nat, size: nat, tables: seq<seq<int>>, stores: seq<WriteOp>, t: nat)
    requires page > 0 && Tables(page, size, tables, stores) && NoneTouches(page, stores, t) && Held(page, tables[0], t)
    ensures if EvictedIn(page, size, tables, stores, t) then Forgotten(page, tables[|stores|], t)
            else Held(page, tables[|stores|], t)
    decreases |stores|
  {
    hide Held, Forgotten, Updated, Touches, Evicts;
    if stores != [] {
      var n := |stores| - 1;
      var ts, ss, w := tables[..n + 1], stores[..n], stores[n];
      forall j | 0 <= j < |ss| ensures Became(page, size, ts[j], ts[j + 1], ss[j]) {
        assert Became(page, size, tables[j], tables[j + 1], stores[j]);
      }
      RunStaysIff(page, size, ts, ss, t);
      assert Became(page, size, tables[n], tables[n + 1], w);
      if EvictedIn(page, size, ts, ss, t) {
        assert EvictedIn(page, size, tables, stores, t);
        StaysForgotten(page, size, tables[n], tables[n + 1], w, t);
      } else {
        StepStaysIff(page, size, tables[n], tables[n + 1], w, t);
      }
    }
  }

  lemma StepStaysIff(page: nat, size: nat, before: seq<int>, after: seq<int>, w: WriteOp, t: nat)
    requires page > 0 && IsTable(size, before) && Became(page, size, before, after, w) && !Touches(page, w, t)
    requires Held(page, before, t)
    ensures if w.address + |w.data| <= size && Evicts(page, before, w, t) then Forgotten(page, after, t)
            else Held(page, after, t)
  {
    hide Held, Forgotten, Updated, Touches;
    if w.address + |w.data| <= size && w.data != [] {
      StaysIff(page, before, after, w, t);
    }
  }

  lemma StaysForgotten(page: nat, size: nat, before: seq<int>, after: seq<int>, w: WriteOp, t: nat)
    requires page > 0 && Became(page, size, before, after, w) && !Touches(page, w, t) && Forgotten(page, before, t)
    ensures Forgotten(page, after, t)
  {
    if w.address + |w.data| <= size && w.data != [] {
      var end := w.address + |w.data| - 1;
      PageOrder(page, w.address, end);
      hide PageNo, EndsPage, PageStart, PageEnd;
      var dropped := DroppedAll(page, before, PageNo(page, w.address), PageNo(page, end));
      forall k | 0 <= k < |dropped| && dropped[k] >= 0 ensures PageNo(page, dropped[k]) != PageNo(page, t) {
        assert dropped[k] == before[k];
      }
      assert PageNo(page, end) != PageNo(page, t);
      hide DroppedAll;
    }
  }

  // ---- free slots ----

  /** How many slots are free. */
  function Free(table: seq<int>): (n: nat)
    ensures n <= |table|
  {
    if table == [] then 0 else Free(table[..|table| - 1]) + if table[|table| - 1] == FREE then 1 else 0
  }

  lemma {:induction false} FreeFound(table: seq<int>)
    ensures Free(table) > 0 <==> exists k :: 0 <= k < |table| && table[k] == FREE
    decreases |table|
  {
    if table != [] {
      var rest := table[..|table| - 1];
      FreeFound(rest);
      if k :| 0 <= k < |table| && table[k] == FREE {
        assert k < |rest| ==> rest[k] == FREE;
      }
    }
  }

  /** Freeing slots, and then taking one. */
  lemma {:induction false} FreeAfter(before: seq<int>, after: seq<int>, taken: nat)
    requires |after| == |before|
    requires forall k :: 0 <= k < |before| && k != taken && before[k] == FREE ==> after[k] == FREE
    ensures Free(after) + (if taken < |before| then 1 else 0) >= Free(before)
    decreases |before|
  {
    if before != [] {
      FreeAfter(before[..|before| - 1], after[..|before| - 1], taken);
    }
  }

  lemma FreeLeft(page: nat, size: nat, before: seq<int>, after: seq<int>, w: WriteOp)
    requires page > 0 && Became(page, size, before, after, w)
    ensures Free(after) + 1 >= Free(before)
  {
    if w.address + |w.data| <= size && w.data != [] {
      var end := w.address + |w.data| - 1;
      hide PageNo, EndsPage;
      var dropped := DroppedAll(page, before, PageNo(page, w.address), PageNo(page, end));
      if EndsPage(page, end) {
        FreeAfter(before, dropped, |before|);
      } else {
        var index: nat :| ChosenSlot(dropped, end, index) && after == dropped[index := end];
        FreeAfter(before, after, index);
      }
    }
  }

  /** As long as there are free slots, one for each store, nothing is evicted. */
  lemma {:induction false} FreeSlotsSpare(page: nat, size: nat, tables: seq<seq<int>>, stores: seq<WriteOp>, t: nat)
    requires page > 0 && Tables(page, size, tables, stores) && Free(tables[0]) >= |stores|
    ensures !EvictedIn(page, size, tables, stores, t)
    decreases |stores|
  {
    forall j | 0 <= j < |stores| ensures !Evicts(page, tables[j], stores[j], t) {
      FreeIn(page, size, tables, stores, j);
      FreeFound(tables[j]);
    }
  }

  lemma {:induction false} FreeIn(page: nat, size: nat, tables: seq<seq<int>>, stores: seq<WriteOp>, j: nat)
    requires page > 0 && Tables(page, size, tables, stores) && j <= |stores|
    ensures Free(tables[j]) + j >= Free(tables[0])
    decreases j
  {
    if j > 0 {
      hide Became, Free;
      FreeIn(page, size, tables, stores, j - 1);
      FreeLeft(page, size, tables[j - 1], tables[j], stores[j - 1]);
    }
  }

  // ---- on the driver ----

  /** With `t` remembered alone on its page, what lies on that page gets by without an erasure exactly behind `t`. */
  lemma ExemptIff(page: nat, table: seq<int>, t: nat, address: nat)
    requires page > 0 && PageNo(page, address) == PageNo(page, t)
    ensures Held(page, table, t) ==>
              ((exists k :: 0 <= k < |table| && 0 <= table[k] < address && PageNo(page, table[k]) == PageNo(page, address))
               <==> t < address)
    ensures Forgotten(page, table, t) ==>
              !exists k :: 0 <= k < |table| && 0 <= table[k] < address && PageNo(page, table[k]) == PageNo(page, address)
  {
    hide PageNo;
    if Held(page, table, t) {
      var i: nat :| HeldAt(page, table, t, i);
      assert table[i] == t;
    }
  }

  lemma EndOnPage(page: nat, size: nat, pages: nat, t: nat, end: nat)
    requires page > 0 && size == PageAddress(page, pages) && t < size && PageNo(page, end) == PageNo(page, t)
    ensures end < size
  {
    PageInStorage(page, pages, t);
    PageOrder(page, t, end);
  }

  /** Several stores, and the tables they leave. */
  method StoreOthers(d: Driver, others: seq<WriteOp>) returns (ghost tables: seq<seq<int>>)
    requires d.Valid()
    modifies d.flash, d.table
    ensures d.Valid() && Tables(d.page, d.flash.Length, tables, others)
    ensures tables[0] == old(d.table[..]) && tables[|others|] == d.table[..]
    ensures d.flash[..] == StoredAll(old(d.flash[..]), d.page, d.pages, others)
  {
    hide AllTracked, StoredIfFits, PageAddress, WordAligned, Updated, PageNo, Reprogrammed, RangeEnd, TailErased;
    ghost var mem := d.flash[..];
    tables := [d.table[..]];
    var i := 0;
    while i < |others|
      invariant 0 <= i <= |others| && d.Valid() && |tables| == i + 1
      invariant tables[0] == old(d.table[..]) && tables[i] == d.table[..]
      invariant forall j :: 0 <= j < |tables| ==> IsTable(d.flash.Length, tables[j])
      invariant forall j :: 0 <= j < i ==> Became(d.page, d.flash.Length, tables[j], tables[j + 1], others[j])
      invariant StoredAll(d.flash[..], d.page, d.pages, others[i..]) == StoredAll(mem, d.page, d.pages, others)
    {
      assert others[i..][0] == others[i] && others[i..][1..] == others[i + 1..];
      var ok := d.Store(others[i].address, others[i].data, true);
      tables := tables + [d.table[..]];
      i := i + 1;
    }
  }

  /** One store, and the table it leaves. */
  method StoreOne(d: Driver, address: nat, data: seq<byte>)
    requires d.Valid() && data != [] && address + |data| <= d.flash.Length && (address + |data|) % d.page != 0
    modifies d.flash, d.table
    ensures d.Valid() && Updated(d.page, old(d.table[..]), d.table[..], address, |data|)
    ensures Held(d.page, d.table[..], address + |data| - 1)
    ensures d.flash[..] == StoredIfFits(old(d.flash[..]), d.page, d.pages, WriteOp(address, data))
  {
    hide AllTracked, StoredIfFits, PageAddress, WordAligned, Updated, PageNo, Reprogrammed, RangeEnd, TailErased,
      IsTable, Held;
    var ok := d.Store(address, data, true);
    EndIsHeld(d.page, old(d.table[..]), d.table[..], address, |data|);
  }

  /** A store on the page of `t`, while the flash refuses to erase. */
  method StoreUnerased(d: Driver, ghost t: nat, address: nat, data: seq<byte>) returns (ok: bool)
    requires d.Valid() && data != [] && t < d.flash.Length
    requires PageNo(d.page, address) == PageNo(d.page, address + |data| - 1) == PageNo(d.page, t)
    requires Held(d.page, d.table[..], t) || Forgotten(d.page, d.table[..], t)
    modifies d.flash, d.table
    ensures d.Sized() && (ok <==> t < address && Held(d.page, old(d.table[..]), t))
    ensures d.flash[..] == if ok then StoredIfFits(old(d.flash[..]), d.page, d.pages, WriteOp(address, data))
                           else old(d.flash[..])
  {
    ExemptIff(d.page, d.table[..], t, address);
    EndOnPage(d.page, d.flash.Length, d.pages, t, address + |data| - 1);
    hide AllTracked, StoredIfFits, PageAddress, WordAligned, Updated, PageNo, Reprogrammed, RangeEnd, TailErased, IsTable;
    ghost var table := d.table[..];
    HeldOrForgotten(d.page, table, t);
    hide Held, Forgotten;
    ok := d.Store(address, data, false);
  }

  lemma HeldOrForgotten(page: nat, table: seq<int>, t: nat)
    requires page > 0
    ensures !(Held(page, table, t) && Forgotten(page, table, t))
  {
    hide PageNo;
  }

  /**
   * A store that ends at some address, not the last one of its page; then others that leave the page alone; then, with the
   * flash refusing to erase, one on that page. It is done if and only if it lies behind the end of the first one, and no
   * store in between has evicted that end from the table. With a free slot for each of them none has.
   */
  method StoreAgain(d: Driver, address: nat, data: seq<byte>, others: seq<WriteOp>, address2: nat, data2: seq<byte>)
    returns (ok: bool, ghost tables: seq<seq<int>>)
    requires d.Valid() && data != [] && address + |data| <= d.flash.Length && (address + |data|) % d.page != 0
    requires NoneTouches(d.page, others, address + |data| - 1) && data2 != []
    requires PageNo(d.page, address2) == PageNo(d.page, address2 + |data2| - 1) == PageNo(d.page, address + |data| - 1)
    modifies d.flash, d.table
    ensures d.Sized() && Tables(d.page, d.flash.Length, tables, others)
    ensures Updated(d.page, old(d.table[..]), tables[0], address, |data|)
    ensures ok <==> address + |data| <= address2 && !EvictedIn(d.page, d.flash.Length, tables, others, address + |data| - 1)
    ensures Free(tables[0]) >= |others| ==> (ok <==> address + |data| <= address2)
    ensures var mem := StoredIfFits(old(d.flash[..]), d.page, d.pages, WriteOp(address, data));
            var between := StoredAll(mem, d.page, d.pages, others);
            d.flash[..] == if ok then StoredIfFits(between, d.page, d.pages, WriteOp(address2, data2)) else between
  {
    hide AllTracked, StoredIfFits, StoredAll, WordAligned, Updated, IsTable, Held, Forgotten, Evicts, Touches, PageNo,
      PageAddress, Became, Free;
    ghost var t := address + |data| - 1;
    StoreOne(d, address, data);
    tables := StoreOthers(d, others);
    RunStaysIff(d.page, d.flash.Length, tables, others, t);
    HeldOrForgotten(d.page, d.table[..], t);
    if Free(tables[0]) >= |others| {
      FreeSlotsSpare(d.page, d.flash.Length, tables, others, t);
    }
    ok := StoreUnerased(d, t, address2, data2);
  }
}
