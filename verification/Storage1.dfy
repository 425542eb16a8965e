/** Byte-addressed storage on flash that erases no more pages than it must (storage1_lib.c). */
module Storage1 {
  import opened Bytes
  import opened Units
  import opened Flash

  const TABLE_SIZE := 15
  const WORDS_BUF_SIZE := 100
  const PORTION := 4 * WORDS_BUF_SIZE
  const CLEAR_SIZE := 128
  const FREE := -1

  // ---- what a store should do ----

  /** Where the last page touched by a non-empty range ends. */
  function RangeEnd(page: nat, address: nat, n: nat): (r: nat)
    requires page > 0 && n > 0
    ensures address + n <= r
  {
    PageEnd(page, address + n - 1)
  }

  /** What is before `address` stays, the data follows, and the rest of the last page is erased. */
  function Stored(mem: seq<byte>, page: nat, address: nat, data: seq<byte>): (r: seq<byte>)
    requires page > 0 && address + |data| <= |mem| && (data != [] ==> RangeEnd(page, address, |data|) <= |mem|)
    ensures |r| == |mem|
  {
    if data == [] then mem
    else Write(Erase(mem, address, RangeEnd(page, address, |data|)), address, data)
  }

  /** The simple way to get there: erase every page of the range, program what was before the data again, then the data. */
  function AlwaysErased(mem: seq<byte>, page: nat, address: nat, data: seq<byte>): seq<byte>
    requires page > 0 && data != [] && RangeEnd(page, address, |data|) <= |mem|
  {
    var start := PageStart(page, address);
    var erased := Erase(mem, start, RangeEnd(page, address, |data|));
    Program(Program(erased, start, mem[start..address]), address, data)
  }

  lemma RangeInPages(page: nat, address: nat, n: nat)
    requires page > 0 && n > 0
    ensures PageStart(page, address) <= address < address + n <= RangeEnd(page, address, n)
    ensures PageEnd(page, address) <= RangeEnd(page, address, n)
  {
    hide PageStart, PageEnd, PageNo;
    PageOrder(page, address, address + n - 1);
    StartMonotone(page, address, address + n - 1);
  }

  lemma StartMonotone(page: nat, x: nat, y: nat)
    requires page > 0 && x <= y
    ensures PageEnd(page, x) <= PageEnd(page, y)
  {
    hide PageStart, PageNo;
    PageOrder(page, x, y);
  }

  /** Always erasing does what it should. */
  lemma AlwaysErasedStores(mem: seq<byte>, page: nat, address: nat, data: seq<byte>)
    requires page > 0 && data != [] && RangeEnd(page, address, |data|) <= |mem|
    ensures AlwaysErased(mem, page, address, data) == Stored(mem, page, address, data)
  {
    hide PageStart, PageEnd, RangeEnd, Program, PageNo;
    RangeInPages(page, address, |data|);
    var start, end := PageStart(page, address), RangeEnd(page, address, |data|);
    var erased := Erase(mem, start, end);
    ProgramBlank(erased, start, mem[start..address]);
    var restored := Write(erased, start, mem[start..address]);
    ProgramBlank(restored, address, data);
  }

  /** A store and then another one right behind it are one store. */
  lemma StoredInPieces(mem: seq<byte>, page: nat, address: nat, a: seq<byte>, b: seq<byte>)
    requires page > 0 && address + |a| + |b| <= |mem|
    requires a != [] ==> RangeEnd(page, address, |a|) <= |mem|
    requires b != [] ==> RangeEnd(page, address + |a|, |b|) <= |mem|
    requires a + b != [] ==> RangeEnd(page, address, |a + b|) <= |mem|
    ensures Stored(Stored(mem, page, address, a), page, address + |a|, b) == Stored(mem, page, address, a + b)
  {
    hide PageStart, PageEnd, PageNo;
    if b == [] {
      assert a + b == a;
    } else if a == [] {
      assert a + b == b;
    } else {
      StartMonotone(page, address + |a| - 1, address + |a| + |b| - 1);
      assert RangeEnd(page, address, |a + b|) == RangeEnd(page, address + |a|, |b|);
      hide RangeEnd;
      TwoErasures(mem, address, RangeEnd(page, address, |a|), a, b, RangeEnd(page, address + |a|, |b|));
    }
  }

  lemma TwoErasures(mem: seq<byte>, address: nat, end1: nat, a: seq<byte>, b: seq<byte>, end2: nat)
    requires address + |a| <= end1 <= end2 <= |mem| && address + |a| + |b| <= end2
    ensures Write(Erase(Write(Erase(mem, address, end1), address, a), address + |a|, end2), address + |a|, b)
         == Write(Erase(mem, address, end2), address, a + b)
  {
  }

  // ---- the table of last stored addresses ----

  /** Everything behind a tracked address on its page is erased. */
  predicate Tracked(mem: seq<byte>, page: nat, t: int)
    requires page > 0
  {
    t == FREE || (0 <= t < |mem| && Blank(mem, t + 1, PageEnd(page, t)))
  }

  predicate AllTracked(mem: seq<byte>, page: nat, table: seq<int>)
    requires page > 0
  {
    forall k :: 0 <= k < |table| ==> Tracked(mem, page, table[k])
  }

  predicate IsTable(size: nat, table: seq<int>) {
    forall k :: 0 <= k < |table| ==> table[k] == FREE || 0 <= table[k] < size
  }

  /** An entry shows that the page of `address` is erased from there on. */
  predicate Shows(page: nat, t: int, address: nat)
    requires page > 0
  {
    0 <= t < address && PageNo(page, t) == PageNo(page, address)
  }

  ghost predicate Skips(page: nat, table: seq<int>, address: nat)
    requires page > 0
  {
    exists k :: 0 <= k < |table| && Shows(page, table[k], address)
  }

  /** An entry, unless it lies on one of the pages `first` to `last`. */
  function Dropped(page: nat, t: int, first: nat, last: nat): int
    requires page > 0
  {
    if t >= 0 && first <= PageNo(page, t) <= last then FREE else t
  }

  function DroppedAll(page: nat, table: seq<int>, first: nat, last: nat): (r: seq<int>)
    requires page > 0
    ensures |r| == |table| && forall k :: 0 <= k < |r| ==> r[k] == Dropped(page, table[k], first, last)
  {
    seq(|table|, k requires 0 <= k < |table| => Dropped(page, table[k], first, last))
  }

  /** The slot for a new entry: the first free one, else the closest smaller one (the first of these), else slot 0. */
  ghost predicate ChosenSlot(table: seq<int>, t: int, index: nat) {
    && index < |table|
    && (forall k :: 0 <= k < index ==> table[k] != FREE)
    && (table[index] != FREE ==>
         && (forall k :: 0 <= k < |table| ==> table[k] != FREE)
         && (table[index] < t ==> forall k :: 0 <= k < |table| && table[k] < t ==> table[k] <= table[index])
         && (table[index] < t ==> forall k :: 0 <= k < index ==> table[k] != table[index])
         && (table[index] >= t ==> index == 0 && forall k :: 0 <= k < |table| ==> table[k] >= t))
  }

  /** The table after a store of `n` bytes at `address`: the end of the range is tracked unless a page ends there, too. */
  ghost predicate Updated(page: nat, before: seq<int>, after: seq<int>, address: nat, n: nat)
    requires page > 0 && n > 0
  {
    var end := address + n - 1;
    var dropped := DroppedAll(page, before, PageNo(page, address), PageNo(page, end));
    if EndsPage(page, end) then after == dropped
    else exists index: nat :: ChosenSlot(dropped, end, index) && after == dropped[index := end]
  }

  lemma EndIsTracked(mem: seq<byte>, page: nat, address: nat, data: seq<byte>)
    requires page > 0 && data != [] && RangeEnd(page, address, |data|) <= |mem| && address + |data| <= |mem|
    ensures Tracked(Stored(mem, page, address, data), page, address + |data| - 1)
  {
    hide PageEnd;
  }

  lemma UntouchedStaysTracked(mem: seq<byte>, page: nat, t: int, address: nat, data: seq<byte>)
    requires page > 0 && data != [] && RangeEnd(page, address, |data|) <= |mem| && address + |data| <= |mem|
    requires Tracked(mem, page, t)
    ensures Tracked(Stored(mem, page, address, data), page,
                    Dropped(page, t, PageNo(page, address), PageNo(page, address + |data| - 1)))
  {
    hide PageStart, PageEnd, PageNo;
    if t >= 0 {
      PageOrder(page, t, address);
      PageOrder(page, address + |data| - 1, t);
    }
  }

  lemma DroppedStayTracked(mem: seq<byte>, page: nat, before: seq<int>, address: nat, data: seq<byte>)
    requires page > 0 && data != [] && RangeEnd(page, address, |data|) <= |mem| && address + |data| <= |mem|
    requires AllTracked(mem, page, before)
    ensures AllTracked(Stored(mem, page, address, data), page,
                       DroppedAll(page, before, PageNo(page, address), PageNo(page, address + |data| - 1)))
  {
    hide RangeEnd, Dropped, Stored, Tracked, PageNo;
    var first, last := PageNo(page, address), PageNo(page, address + |data| - 1);
    forall k | 0 <= k < |before| ensures Tracked(Stored(mem, page, address, data), page, Dropped(page, before[k], first, last)) {
      UntouchedStaysTracked(mem, page, before[k], address, data);
    }
  }

  /** The table stays right: dropped entries need nothing, the others lie on pages that are not touched. */
  lemma TableStaysRight(mem: seq<byte>, page: nat, before: seq<int>, after: seq<int>, address: nat, data: seq<byte>)
    requires page > 0 && data != [] && RangeEnd(page, address, |data|) <= |mem| && address + |data| <= |mem|
    requires AllTracked(mem, page, before) && Updated(page, before, after, address, |data|)
    ensures AllTracked(Stored(mem, page, address, data), page, after)
  {
    hide RangeEnd, Stored, Tracked, Dropped, DroppedAll, PageNo, EndsPage;
    EndIsTracked(mem, page, address, data);
    DroppedStayTracked(mem, page, before, address, data);
  }

  // ---- both ways of a store ----

  /** An entry before `address` on its page shows that the page is erased from `address` on. */
  lemma SkippedIsBlank(mem: seq<byte>, page: nat, table: seq<int>, address: nat)
    requires page > 0 && AllTracked(mem, page, table) && Skips(page, table, address)
    ensures Blank(mem, address, PageEnd(page, address))
  {
    hide PageStart, PageEnd, PageNo;
    var k :| 0 <= k < |table| && Shows(page, table[k], address);
    assert Tracked(mem, page, table[k]);
    PageOrder(page, table[k], address);
  }

  /** With the rest of the first page erased already, only the following pages need be. */
  lemma SkippingStores(mem: seq<byte>, page: nat, address: nat, data: seq<byte>)
    requires page > 0 && data != [] && address + |data| <= |mem| && RangeEnd(page, address, |data|) <= |mem|
    requires Blank(mem, address, PageEnd(page, address)) && PageEnd(page, address) <= RangeEnd(page, address, |data|)
    ensures Program(Erase(mem, PageEnd(page, address), RangeEnd(page, address, |data|)), address, data)
         == Stored(mem, page, address, data)
  {
    hide Program, PageEnd, RangeEnd;
    var erased := Erase(mem, PageEnd(page, address), RangeEnd(page, address, |data|));
    assert Blank(erased, address, address + |data|);
    ProgramBlank(erased, address, data);
  }

  /** The contents after erasing [lo, hi), restoring `backup` at `start`, and programming `data`. */
  function Rewritten(mem: seq<byte>, lo: nat, hi: nat, start: nat, backup: seq<byte>, address: nat, data: seq<byte>): seq<byte>
    requires lo <= hi <= |mem| && start + |backup| <= |mem| && address + |data| <= |mem|
  {
    Program(Program(Erase(mem, lo, hi), start, backup), address, data)
  }

  /** What one store programs: the first page is erased and restored unless the table shows that it is blank. */
  ghost function Reprogrammed(mem: seq<byte>, page: nat, table: seq<int>, address: nat, data: seq<byte>): seq<byte>
    requires page > 0 && data != [] && address + |data| <= |mem| && RangeEnd(page, address, |data|) <= |mem|
  {
    RangeInPages(page, address, |data|);
    var start, end := PageStart(page, address), RangeEnd(page, address, |data|);
    if Skips(page, table, address) then Rewritten(mem, PageEnd(page, address), end, start, [], address, data)
    else Rewritten(mem, start, end, start, mem[start..address], address, data)
  }

  /** Whether or not the table lets the first page off, the contents are what they should be. */
  lemma ReprogrammedIsStored(mem: seq<byte>, page: nat, table: seq<int>, address: nat, data: seq<byte>)
    requires page > 0 && data != [] && address + |data| <= |mem| && RangeEnd(page, address, |data|) <= |mem|
    requires AllTracked(mem, page, table)
    ensures Reprogrammed(mem, page, table, address, data) == Stored(mem, page, address, data)
  {
    hide AllTracked, Stored, Skips, RangeEnd, Program, Erase, PageStart, PageEnd;
    RangeInPages(page, address, |data|);
    AlwaysErasedStores(mem, page, address, data);
    ProgramNothing(Erase(mem, PageEnd(page, address), RangeEnd(page, address, |data|)), PageStart(page, address));
    if Skips(page, table, address) {
      SkippedIsBlank(mem, page, table, address);
      SkippingStores(mem, page, address, data);
    }
  }

  /** The entries that let the first page off: those in front of the address, on its page. */
  lemma SkipsMeans(page: nat, table: seq<int>, address: nat)
    requires page > 0
    ensures Skips(page, table, address)
       <==> exists k :: 0 <= k < |table| && 0 <= table[k] < address && PageNo(page, table[k]) == PageNo(page, address)
  {
    hide PageNo;
    if Skips(page, table, address) {
      var k :| 0 <= k < |table| && Shows(page, table[k], address);
      assert table[k] < address;
    }
    if k :| 0 <= k < |table| && 0 <= table[k] < address && PageNo(page, table[k]) == PageNo(page, address) {
      assert Shows(page, table[k], address);
    }
  }

  // ---- an erasure that is refused ----

  /** Some page must be erased: the range does not lie on one page that the table shows to be blank. */
  ghost predicate NeedsErase(page: nat, table: seq<int>, address: nat, n: nat)
    requires page > 0 && n > 0
  {
    Skips(page, table, address) ==> PageNo(page, address) < PageNo(page, address + n - 1)
  }

  lemma NeedsEraseMeans(page: nat, table: seq<int>, address: nat, n: nat)
    requires page > 0 && n > 0
    ensures !NeedsErase(page, table, address, n)
       <==> PageNo(page, address + n - 1) == PageNo(page, address)
            && exists k :: 0 <= k < |table| && 0 <= table[k] < address && PageNo(page, table[k]) == PageNo(page, address)
  {
    SkipsMeans(page, table, address);
    PageOrder(page, address, address + n - 1);
    hide PageNo, Skips, PageStart, PageEnd;
  }

  /** The new entry tells the truth: the rest of its page is erased, or there is none. */
  predicate TailErased(mem: seq<byte>, page: nat, end: nat)
    requires page > 0
  {
    EndsPage(page, end) || Blank(mem, end + 1, PageEnd(page, end))
  }

  /**
   * The table is updated before the pages are erased. If the erasure is refused, all its entries are right if and only if
   * the page of the new one happened to be erased behind it.
   */
  lemma EnteredTooEarly(mem: seq<byte>, page: nat, before: seq<int>, after: seq<int>, address: nat, n: nat)
    requires page > 0 && n > 0 && address + n <= |mem|
    requires AllTracked(mem, page, before) && Updated(page, before, after, address, n)
    ensures AllTracked(mem, page, after) <==> TailErased(mem, page, address + n - 1)
  {
    var end := address + n - 1;
    var dropped := DroppedAll(page, before, PageNo(page, address), PageNo(page, end));
    forall k | 0 <= k < |dropped| ensures Tracked(mem, page, dropped[k]) {
      assert Tracked(mem, page, before[k]);
    }
    hide DroppedAll, PageNo, PageEnd, EndsPage, Blank;
    if !EndsPage(page, end) {
      var index: nat :| ChosenSlot(dropped, end, index) && after == dropped[index := end];
      assert after[index] == end;
    }
  }

  /** Where nothing is erased, the data read back as they were stored if and only if they clear no bit that is clear already. */
  lemma UnerasedReadsBackIff(mem: seq<byte>, page: nat, table: seq<int>, address: nat, data: seq<byte>)
    requires page > 0 && data != [] && address + |data| <= |mem| && RangeEnd(page, address, |data|) <= |mem|
    requires !NeedsErase(page, table, address, |data|)
    ensures Slice(Reprogrammed(mem, page, table, address, data), address, |data|) == data
       <==> forall i :: 0 <= i < |data| ==> And(mem[address + i], data[i]) == data[i]
  {
    hide And, Skips, PageStart;
    PageOrder(page, address, address + |data| - 1);
    hide PageNo, PageEnd, RangeEnd;
    var end := RangeEnd(page, address, |data|);
    ErasedNothing(mem, end);
    ProgramNothing(mem, PageStart(page, address));
    var read := Slice(Program(mem, address, data), address, |data|);
    assert forall i :: 0 <= i < |data| ==> read[i] == And(mem[address + i], data[i]);
  }

  // The smallest example: one page of four written bytes, and an empty table.
  const WRITTEN: seq<byte> := [0, 0, 0, 0]
  const NO_ENTRIES: seq<int> := seq(TABLE_SIZE, _ => FREE)
  const ENTERED: seq<int> := NO_ENTRIES[0 := 0]

  lemma NoEntries()
    ensures DroppedAll(4, NO_ENTRIES, 0, 0) == NO_ENTRIES && ChosenSlot(NO_ENTRIES, 0, 0)
  {
  }

  lemma WrittenIsNotErased()
    ensures !EndsPage(4, 0) && PageNo(4, 0) == 0 && !Blank(WRITTEN, 1, PageEnd(4, 0))
  {
    assert PageEnd(4, 0) == 4 && WRITTEN[1] != ERASED;
  }

  /** The erasure for one byte at the start of the page is refused, its address is tracked all the same. */
  lemma FirstIsEntered()
    ensures AllTracked(WRITTEN, 4, NO_ENTRIES) && NeedsErase(4, NO_ENTRIES, 0, 1) && Updated(4, NO_ENTRIES, ENTERED, 0, 1)
    ensures !TailErased(WRITTEN, 4, 0) && !AllTracked(WRITTEN, 4, ENTERED)
  {
    NoEntries();
    WrittenIsNotErased();
    hide DroppedAll, ChosenSlot, EndsPage, PageNo, Blank, PageEnd;
    assert ENTERED[0] == 0;
    assert !Tracked(WRITTEN, 4, ENTERED[0]);
  }

  /** So a store behind it is not preceded by an erasure. */
  lemma SecondIsSkipped()
    ensures !NeedsErase(4, ENTERED, 1, 1) && RangeEnd(4, 1, 1) == 4 == |WRITTEN|
  {
    assert Shows(4, ENTERED[0], 1) && PageEnd(4, 1) == 4;
  }

  lemma SevenIsLost(data: seq<byte>)
    requires data == [7]
    ensures And(WRITTEN[1 + 0], data[0]) != data[0]
  {
    AndZero(7);
  }

  /** Storing 7 there reads back as another byte. */
  lemma SpoiltStore()
    ensures RangeEnd(4, 1, 1) == 4
    ensures Slice(Reprogrammed(WRITTEN, 4, ENTERED, 1, [7]), 1, 1) != [7]
  {
    hide *;
    SecondIsSkipped();
    SevenIsLost([7]);
    UnerasedReadsBackIff(WRITTEN, 4, ENTERED, 1, [7]);
  }

  lemma ProgramNothing(mem: seq<byte>, address: nat)
    requires address <= |mem|
    ensures Program(mem, address, []) == mem
  {
  }

  lemma ErasedNothing(mem: seq<byte>, lo: nat)
    requires lo <= |mem|
    ensures Erase(mem, lo, lo) == mem
  {
  }

  /** A run of stores, the first one first. */
  function StoredAll(mem: seq<byte>, page: nat, pages: nat, stores: seq<WriteOp>): (r: seq<byte>)
    requires page > 0 && |mem| == PageAddress(page, pages)
    ensures |r| == |mem|
    decreases |stores|
  {
    if stores == [] then mem
    else StoredAll(StoredIfFits(mem, page, pages, stores[0]), page, pages, stores[1..])
  }

  /** One store; a range that leaves storage is refused. */
  function StoredIfFits(mem: seq<byte>, page: nat, pages: nat, w: WriteOp): (r: seq<byte>)
    requires page > 0 && |mem| == PageAddress(page, pages)
    ensures |r| == |mem|
  {
    if w.address + |w.data| > |mem| then mem
    else if w.data == [] then mem
    else
      RangeInStorage(page, pages, w.address, |w.data|);
      Stored(mem, page, w.address, w.data)
  }

  /** The same run on a driver that erases every page it touches. */
  function AlwaysErasedAll(mem: seq<byte>, page: nat, pages: nat, stores: seq<WriteOp>): (r: seq<byte>)
    requires page > 0 && |mem| == PageAddress(page, pages)
    ensures |r| == |mem|
    decreases |stores|
  {
    if stores == [] then mem
    else
      var w := stores[0];
      AlwaysErasedAll(
        if w.address + |w.data| > |mem| || w.data == [] then mem
        else RangeInStorage(page, pages, w.address, |w.data|); AlwaysErased(mem, page, w.address, w.data),
        page, pages, stores[1..])
  }

  /** Skipping erasures makes no difference, over any run of stores. */
  lemma {:induction false} SkippingMakesNoDifference(mem: seq<byte>, page: nat, pages: nat, stores: seq<WriteOp>)
    requires page > 0 && |mem| == PageAddress(page, pages)
    ensures StoredAll(mem, page, pages, stores) == AlwaysErasedAll(mem, page, pages, stores)
    decreases |stores|
  {
    hide Stored, AlwaysErased, PageAddress, RangeEnd;
    if stores != [] {
      var w := stores[0];
      if w.address + |w.data| <= |mem| && w.data != [] {
        RangeInStorage(page, pages, w.address, |w.data|);
        AlwaysErasedStores(mem, page, w.address, w.data);
      }
      SkippingMakesNoDifference(StoredIfFits(mem, page, pages, w), page, pages, stores[1..]);
    }
  }

  lemma RangeInStorage(page: nat, pages: nat, address: nat, n: nat)
    requires page > 0 && n > 0 && address + n <= PageAddress(page, pages)
    ensures RangeEnd(page, address, n) <= PageAddress(page, pages)
  {
    PageInStorage(page, pages, address + n - 1);
  }

  // ---- words ----

  predicate WordAligned(address: nat) { address % 4 == 0 }

  /** The range lies in one word. */
  predicate InWord(address: nat, n: nat) { address % 4 + n <= 4 }

  function WordNo(address: nat): (r: nat)
    ensures r * 4 <= address < r * 4 + 4
  {
    address / 4
  }

  /** The split of a byte range into whole words and what is left at either end. */
  ghost predicate Split(address: nat, n: nat, leading: nat, intermediate: nat, final: nat) {
    && leading + intermediate + final == n
    && (0 < intermediate < 4 ==> leading == final == 0 && InWord(address, n))
    && (intermediate >= 4 ==> WordAligned(address + leading) && WordAligned(intermediate))
    && (leading > 0 ==> InWord(address, leading) && WordAligned(address + leading))
    && (final > 0 ==> InWord(address + leading + intermediate, final) && WordAligned(address + leading + intermediate))
  }

  /** `storage1_compute_word_aligned_addresses`. */
  method ComputeWordAlignedAddresses(address: nat, n: nat) returns (leading: nat, intermediate: nat, final: nat)
    ensures Split(address, n, leading, intermediate, final)
  {
    leading, intermediate, final := 0, 0, 0;
    if n == 0 {
      return;
    }
    var firstWord, lastWord := address / 4, (address + n - 1) / 4;
    if firstWord == lastWord && address % 4 != 0 && (address + n) % 4 != 0 {
      intermediate := n;
    } else {
      leading := ((address / 4 + 1) * 4 - address) % 4;
      final := ((address + n) - (address + n) / 4 * 4) % 4;
      Ends(address, n);
      if n >= final + leading {
        intermediate := n - (final + leading);
      }
    }
  }

  lemma Ends(address: nat, n: nat)
    requires n > 0
    requires address / 4 != (address + n - 1) / 4 || address % 4 == 0 || (address + n) % 4 == 0
    ensures var leading := ((address / 4 + 1) * 4 - address) % 4;
            var final := ((address + n) - (address + n) / 4 * 4) % 4;
      && leading == (if address % 4 == 0 then 0 else 4 - address % 4) && final == (address + n) % 4
      && leading + final <= n && (n - leading - final) % 4 == 0 && (address + leading) % 4 == 0
      && (address + n - final) % 4 == 0
  {
    var q, r, end := address / 4, address % 4, address + n;
    assert address == 4 * q + r && end == 4 * (end / 4) + end % 4;
    var leading, final := if r == 0 then 0 else 4 - r, end % 4;
    assert address + leading == 4 * (if r == 0 then q else q + 1);
    assert leading + final <= n;
    assert n - leading - final == 4 * (end / 4 - (if r == 0 then q else q + 1));
  }

  /** Full portions of the word buffer, and the bytes that remain. */
  method SplitPortions(n: nat) returns (portions: nat, remaining: nat)
    requires WordAligned(n)
    ensures n == portions * PORTION + remaining && 0 <= remaining < PORTION && WordAligned(remaining)
  {
    var words := n / 4;
    portions := words / WORDS_BUF_SIZE;
    var remainingWords := words % WORDS_BUF_SIZE;
    remaining := 4 * remainingWords;
    assert n == 4 * words && words == WORDS_BUF_SIZE * portions + remainingWords;
  }

  lemma AlignedWord(address: nat)
    requires WordAligned(address)
    ensures WordNo(address) * 4 == address
  {
  }

  /** The middle first, then both ends. */
  lemma ThreePieces(mem: seq<byte>, address: nat, a: seq<byte>, b: seq<byte>, c: seq<byte>)
    requires address + |a| + |b| + |c| <= |mem|
    ensures var m1 := Program(mem, address + |a|, b);
            var m2 := Program(m1, address, a);
            Program(m2, address + |a| + |b|, c) == Program(mem, address, a + b + c)
  {
    hide And;
  }

  /** `n` bytes from `at` on. */
  function Slice(mem: seq<byte>, at: nat, n: nat): (r: seq<byte>)
    requires at + n <= |mem|
    ensures |r| == n
  {
    mem[at..at + n]
  }

  lemma Adjoin(mem: seq<byte>, at: nat, n: nat, m: nat)
    requires at + n + m <= |mem|
    ensures Slice(mem, at, n) + Slice(mem, at + n, m) == Slice(mem, at, n + m)
  {
  }

  lemma SliceOfAll(mem: seq<byte>)
    ensures Slice(mem, 0, |mem|) == mem && Slice(mem, 0, 0) == []
  {
  }

  lemma SliceOfSlice(mem: seq<byte>, at: nat, n: nat, i: nat, j: nat)
    requires at + n <= |mem| && i + j <= n
    ensures Slice(Slice(mem, at, n), i, j) == Slice(mem, at + i, j)
  {
    var inner, outer := mem[at..at + n], mem[at + i..at + i + j];
    assert inner[i..i + j] == outer by {
      forall k | 0 <= k < j ensures inner[i..i + j][k] == outer[k] {
        assert inner[i + k] == mem[at + (i + k)];
      }
    }
  }

  // ---- the driver ----

  class Driver {
    /** Size and number of the flash pages. */
    const page: nat
    const pages: nat
    const flash: array<byte>
    /** The last addresses of stores, or -1. */
    const table: array<int>

    ghost predicate Sized()
      reads this
    {
      && page > 0 && page % 4 == 0
      && flash.Length == PageAddress(page, pages) && WordAligned(flash.Length) && table.Length == TABLE_SIZE
    }

    /** Every entry of the table is an address of storage. */
    ghost predicate Ready()
      reads this, table
    {
      Sized() && IsTable(flash.Length, table[..])
    }

    /** Every entry of the table tells the truth. */
    ghost predicate Valid()
      reads this, flash, table
    {
      Ready() && AllTracked(flash[..], page, table[..])
    }

    constructor (page: nat, pages: nat, contents: seq<byte>)
      requires page > 0 && page % 4 == 0 && |contents| == PageAddress(page, pages)
      ensures Valid() && flash[..] == contents && this.page == page && this.pages == pages
      ensures fresh(flash) && fresh(table)
    {
      WholeWords(page, pages);
      this.page, this.pages := page, pages;
      flash := new byte[|contents|](i requires 0 <= i < |contents| => contents[i]);
      table := new int[TABLE_SIZE](_ => FREE);
      new;
      assert flash[..] == contents;
    }

    /** `flash_store`: words are programmed at a word address. */
    method FlashStore(wordAddress: nat, words: seq<byte>)
      requires WordAligned(|words|) && wordAddress * 4 + |words| <= flash.Length
      modifies flash
      ensures flash[..] == Program(old(flash[..]), wordAddress * 4, words)
    {
      hide And;
      ghost var mem := flash[..];
      var i := 0;
      while i < |words|
        invariant 0 <= i <= |words|
        invariant forall k :: 0 <= k < flash.Length ==>
          flash[k] == if wordAddress * 4 <= k < wordAddress * 4 + i then And(mem[k], words[k - wordAddress * 4]) else mem[k]
      {
        flash[wordAddress * 4 + i] := And(flash[wordAddress * 4 + i], words[i]);
        i := i + 1;
      }
    }

    /** `flash_read`. */
    method FlashRead(wordAddress: nat, count: nat) returns (words: seq<byte>)
      requires wordAddress * 4 + count * 4 <= flash.Length
      ensures words == Slice(flash[..], wordAddress * 4, count * 4)
    {
      words := flash[wordAddress * 4..wordAddress * 4 + count * 4];
    }

    /** `flash_erase`. */
    method FlashErase(start: nat, num: nat)
      requires PageAddress(page, start) <= PageAddress(page, start + num) <= flash.Length
      modifies flash
      ensures flash[..] == Erase(old(flash[..]), PageAddress(page, start), PageAddress(page, start + num))
    {
      hide PageAddress;
      ghost var mem := flash[..];
      var lo, hi := PageAddress(page, start), PageAddress(page, start + num);
      var i := lo;
      while i < hi
        invariant lo <= i <= hi
        invariant forall k :: 0 <= k < flash.Length ==> flash[k] == if lo <= k < i then ERASED else mem[k]
      {
        flash[i] := ERASED;
        i := i + 1;
      }
    }

    /** A portion of whole words. */
    method StorePortion(wordAddress: nat, ghost address: nat, words: seq<byte>)
      requires WordAligned(|words|) && wordAddress * 4 == address && address + |words| <= flash.Length
      modifies flash
      ensures flash[..] == Program(old(flash[..]), address, words)
    {
      FlashStore(wordAddress, words);
    }

    /** The whole words in the middle of a range, in portions of the word buffer. */
    method StoreWords(address: nat, data: seq<byte>)
      requires WordAligned(address) && WordAligned(|data|) && address + |data| <= flash.Length
      modifies flash
      ensures flash[..] == Program(old(flash[..]), address, data)
    {
      hide And, Program, WordAligned, WordNo, Slice;
      ghost var mem := flash[..];
      var portions, remaining := SplitPortions(|data|);
      AlignedWord(address);
      PortionAligned();
      SliceOfAll(data);
      ProgramNothing(mem, address);
      var i, done := 0, 0;
      while i < portions
        invariant 0 <= i <= portions && done == i * PORTION
        invariant flash[..] == Program(mem, address, Slice(data, 0, done))
      {
        ProgramPieces(mem, address, Slice(data, 0, done), Slice(data, done, PORTION));
        Adjoin(data, 0, done, PORTION);
        StorePortion(WordNo(address) + i * WORDS_BUF_SIZE, address + done, Slice(data, done, PORTION));
        i, done := i + 1, done + PORTION;
      }
      if remaining > 0 {
        ProgramPieces(mem, address, Slice(data, 0, done), Slice(data, done, remaining));
        Adjoin(data, 0, done, remaining);
        StorePortion(WordNo(address) + i * WORDS_BUF_SIZE, address + done, Slice(data, done, remaining));
      }
    }

    /** Bytes inside one word, padded with ones on both sides. */
    method StorePadded(address: nat, data: seq<byte>)
      requires WordAligned(flash.Length) && (data != [] ==> InWord(address, |data|)) && address + |data| <= flash.Length
      modifies flash
      ensures flash[..] == Program(old(flash[..]), address, data)
    {
      hide And, Program, WordNo;
      if data == [] {
        ProgramNothing(flash[..], address);
        return;
      }
      var startIndex := address % 4;
      var endIndex := startIndex + |data|;
      var tmp := Repeat(ERASED, startIndex) + data + Repeat(ERASED, 4 - endIndex);
      ProgramPadded(flash[..], WordNo(address) * 4, startIndex, data, 4 - endIndex);
      FlashStore(WordNo(address), tmp);
    }

    /** The middle of a range: whole words, or bytes inside one word. */
    method StoreMiddle(address: nat, data: seq<byte>)
      requires WordAligned(flash.Length) && address + |data| <= flash.Length
      requires 0 < |data| < 4 ==> InWord(address, |data|)
      requires |data| >= 4 ==> WordAligned(address) && WordAligned(|data|)
      modifies flash
      ensures flash[..] == Program(old(flash[..]), address, data)
    {
      if |data| < 4 {
        StorePadded(address, data);
      } else {
        StoreWords(address, data);
      }
    }

    /** `storage1_store_uint8_as_uint32`: whole words first, then the bytes in front of and behind them. */
    method StoreBytes(address: nat, data: seq<byte>) returns (ok: bool)
      requires WordAligned(flash.Length)
      modifies flash
      ensures ok <==> address + |data| <= flash.Length
      ensures flash[..] == if ok then Program(old(flash[..]), address, data) else old(flash[..])
    {
      hide And, Program, WordAligned, InWord, Slice;
      if address + |data| > flash.Length {
        return false;
      }
      ok := true;
      var leading, intermediate, final := ComputeWordAlignedAddresses(address, |data|);
      var a, b, c := Slice(data, 0, leading), Slice(data, leading, intermediate), Slice(data, leading + intermediate, final);
      SliceOfAll(data);
      Adjoin(data, 0, leading, intermediate);
      Adjoin(data, 0, leading + intermediate, final);
      ThreePieces(flash[..], address, a, b, c);
      StoreMiddle(address + leading, b);
      StorePadded(address, a);
      StorePadded(address + leading + intermediate, c);
    }

    /** A portion of whole words. */
    method ReadPortion(wordAddress: nat, count: nat, ghost address: nat) returns (words: seq<byte>)
      requires wordAddress * 4 == address && address + 4 * count <= flash.Length
      ensures words == Slice(flash[..], address, 4 * count)
    {
      words := FlashRead(wordAddress, count);
    }

    /** The whole words in the middle of a range, in portions of the word buffer. */
    method ReadWords(address: nat, n: nat) returns (data: seq<byte>)
      requires WordAligned(address) && WordAligned(n) && address + n <= flash.Length
      ensures data == Slice(flash[..], address, n)
    {
      hide WordAligned, WordNo, Slice;
      ghost var mem := flash[..];
      var portions, remaining := SplitPortions(n);
      AlignedWord(address);
      var i, done := 0, 0;
      data := [];
      while i < portions
        invariant 0 <= i <= portions && done == i * PORTION
        invariant data == Slice(mem, address, done)
      {
        var chunk := ReadPortion(WordNo(address) + i * WORDS_BUF_SIZE, WORDS_BUF_SIZE, address + done);
        Adjoin(mem, address, done, PORTION);
        data := data + chunk;
        i, done := i + 1, done + PORTION;
      }
      if remaining > 0 {
        var chunk := ReadPortion(WordNo(address) + i * WORDS_BUF_SIZE, remaining / 4, address + done);
        Adjoin(mem, address, done, remaining);
        data := data + chunk;
      }
    }

    /** Bytes inside one word. */
    method ReadInWord(address: nat, n: nat) returns (data: seq<byte>)
      requires WordAligned(flash.Length) && address + n <= flash.Length && (n > 0 ==> InWord(address, n))
      ensures data == Slice(flash[..], address, n)
    {
      hide WordNo, Slice;
      if n == 0 {
        return [];
      }
      var word := FlashRead(WordNo(address), 1);
      data := Slice(word, address % 4, n);
      SliceOfSlice(flash[..], WordNo(address) * 4, 4, address % 4, n);
    }

    /** The middle of a range: whole words, or bytes inside one word. */
    method ReadMiddle(address: nat, n: nat) returns (data: seq<byte>)
      requires WordAligned(flash.Length) && address + n <= flash.Length
      requires 0 < n < 4 ==> InWord(address, n)
      requires n >= 4 ==> WordAligned(address) && WordAligned(n)
      ensures data == Slice(flash[..], address, n)
    {
      hide Slice;
      if n < 4 {
        data := ReadInWord(address, n);
      } else {
        data := ReadWords(address, n);
      }
    }

    /** `storage1_read_uint32_as_uint8`. */
    method ReadBytes(address: nat, n: nat) returns (ok: bool, data: seq<byte>)
      requires WordAligned(flash.Length)
      ensures ok <==> address + n <= flash.Length
      ensures ok ==> data == Slice(flash[..], address, n)
    {
      hide WordAligned, InWord, Slice;
      if address + n > flash.Length {
        return false, [];
      }
      ok := true;
      var leading, intermediate, final := ComputeWordAlignedAddresses(address, n);
      var b := ReadMiddle(address + leading, intermediate);
      var a := ReadInWord(address, leading);
      var c := ReadInWord(address + leading + intermediate, final);
      Adjoin(flash[..], address, leading, intermediate);
      Adjoin(flash[..], address, leading + intermediate, final);
      data := a + b + c;
    }

    /** The first half of `storage1_compute_pages_to_erase`: drop the entries on the pages of the range. */
    method DropEntries(address: nat, first: nat, num: nat) returns (start: nat, count: nat)
      requires page > 0 && table.Length == TABLE_SIZE && num > 0 && first == PageNo(page, address)
      requires IsTable(flash.Length, table[..])
      modifies table
      ensures table[..] == DroppedAll(page, old(table[..]), first, first + num - 1)
      ensures start == (if Skips(page, old(table[..]), address) then first + 1 else first) && start + count == first + num
    {
      hide DroppedAll, PageNo;
      ghost var before := table[..];
      start, count := first, num;
      var i := 0;
      while i < TABLE_SIZE
        invariant 0 <= i <= TABLE_SIZE
        invariant start + count == first + num
        invariant start == if exists k :: 0 <= k < i && Shows(page, before[k], address) then first + 1 else first
        invariant forall k :: 0 <= k < TABLE_SIZE ==>
          table[k] == if k < i then Dropped(page, before[k], first, first + num - 1) else before[k]
      {
        var t := table[i];
        assert t == before[i];
        if t != FREE {
          var entryPage := PageNo(page, t);
          if entryPage == first {
            if t < address {
              start, count := first + 1, num - 1;
              assert Shows(page, before[i], address);
            }
            table[i] := FREE;
          } else if entryPage > first && entryPage < first + num {
            table[i] := FREE;
          }
        }
        i := i + 1;
      }
    }

    /** The slot for the new end address. */
    method ChooseSlot(end: nat) returns (index: nat)
      requires table.Length == TABLE_SIZE && end < flash.Length && IsTable(flash.Length, table[..])
      ensures index < TABLE_SIZE && ChosenSlot(table[..], end, index)
    {
      index := 0;
      var minDiff: int := flash.Length;
      var i := 0;
      while i < TABLE_SIZE
        invariant 0 <= i <= TABLE_SIZE && 0 <= index < TABLE_SIZE
        invariant forall k :: 0 <= k < i ==> table[k] != FREE
        invariant minDiff == flash.Length ==> index == 0 && forall k :: 0 <= k < i ==> table[k] >= end
        invariant minDiff != flash.Length ==>
          && index < i && table[index] < end && minDiff == end - table[index]
          && (forall k :: 0 <= k < i && table[k] < end ==> table[k] <= table[index])
          && (forall k :: 0 <= k < index ==> table[k] != table[index])
      {
        if table[i] == FREE {
          index := i;
          return;
        } else if table[i] < end && end - table[i] < minDiff {
          minDiff := end - table[i];
          index := i;
        }
        i := i + 1;
      }
    }

    /** `storage1_compute_pages_to_erase`. */
    method ComputePagesToErase(address: nat, n: nat) returns (ok: bool, start: nat, num: nat)
      requires page > 0 && table.Length == TABLE_SIZE && IsTable(flash.Length, table[..])
      modifies table
      ensures ok <==> address + n <= flash.Length
      ensures !ok || n == 0 ==> start == num == 0 && table[..] == old(table[..])
      ensures ok && n > 0 ==>
        && start + num == PageNo(page, address + n - 1) + 1
        && start == PageNo(page, address) + (if exists k :: 0 <= k < TABLE_SIZE && 0 <= old(table[..])[k] < address
                                                   && PageNo(page, old(table[..])[k]) == PageNo(page, address) then 1 else 0)
        && Updated(page, old(table[..]), table[..], address, n)
    {
      SkipsMeans(page, table[..], address);
      hide DroppedAll, ChosenSlot, Dropped, Skips, PageNo, EndsPage, PageStart, PageEnd;
      start, num := 0, 0;
      if address + n > flash.Length {
        return false, 0, 0;
      }
      if n == 0 {
        return true, 0, 0;
      }
      ok := true;
      ghost var before := table[..];
      var first, end := PageNo(page, address), address + n - 1;
      PageOrder(page, address, end);
      start, num := DropEntries(address, first, PageNo(page, end) + 1 - first);
      ghost var dropped := table[..];
      DroppedIsTable(page, before, first, PageNo(page, end), flash.Length);
      if EndsPage(page, end) {
        return;
      }
      var index := ChooseSlot(end);
      table[index] := end;
      assert table[..] == dropped[index := end];
    }

    /** The old data before `address` on its page. */
    method ReadPrefix(address: nat) returns (backup: seq<byte>)
      requires page > 0 && WordAligned(flash.Length) && address < flash.Length
      ensures backup == flash[..][PageStart(page, address)..address]
    {
      hide PageStart;
      var pageStart := PageStart(page, address);
      var backupLength := address - pageStart;
      backup := [];
      if backupLength > 0 {
        var ok;
        ok, backup := ReadBytes(pageStart, backupLength);
      }
      assert backup == Slice(flash[..], pageStart, backupLength);
    }

    /** Erase some pages, or none; flash that is busy refuses. */
    method EraseSome(start: nat, num: nat, erases: bool) returns (ok: bool)
      requires PageAddress(page, start) <= PageAddress(page, start + num) <= flash.Length
      modifies flash
      ensures ok <==> erases || num == 0
      ensures flash[..] == if ok then Erase(old(flash[..]), PageAddress(page, start), PageAddress(page, start + num))
                           else old(flash[..])
    {
      hide PageAddress;
      if num > 0 {
        if !erases {
          return false;
        }
        FlashErase(start, num);
      } else {
        ErasedNothing(flash[..], PageAddress(page, start));
      }
      ok := true;
    }

    /**
     * `storage1_store`; `erases` says whether `flash_erase` goes through. A store that is refused changes no byte, but
     * leaves the table as if it had been done.
     */
    method Store(address: nat, data: seq<byte>, erases: bool) returns (ok: bool)
      requires Ready()
      modifies flash, table
      ensures Ready()
      ensures ok <==> address + |data| <= flash.Length
                      && (data == [] || erases
                          || (PageNo(page, address + |data| - 1) == PageNo(page, address)
                              && exists k :: 0 <= k < TABLE_SIZE && 0 <= old(table[..])[k] < address
                                             && PageNo(page, old(table[..])[k]) == PageNo(page, address)))
      ensures address + |data| > flash.Length || data == [] ==> table[..] == old(table[..])
      ensures address + |data| <= flash.Length && data != [] ==> Updated(page, old(table[..]), table[..], address, |data|)
      ensures !ok || data == [] ==> flash[..] == old(flash[..])
      ensures ok && data != [] ==>
        && RangeEnd(page, address, |data|) <= flash.Length
        && flash[..] == Reprogrammed(old(flash[..]), page, old(table[..]), address, data)
      ensures old(Valid()) ==>
        && flash[..] == (if ok || address + |data| > flash.Length
                         then StoredIfFits(old(flash[..]), page, pages, WriteOp(address, data)) else old(flash[..]))
        && (Valid() <==> ok || address + |data| > flash.Length || TailErased(flash[..], page, address + |data| - 1))
    {
      hide AllTracked, Stored, Updated, Program, Erase, Skips, RangeEnd, PageAddress, PageNo, PageEnd, WordAligned, TailErased;
      if address + |data| > flash.Length {
        return false;
      }
      if data == [] {
        return true;
      }
      ghost var mem, entries := flash[..], table[..];
      RangeInStorage(page, pages, address, |data|);
      RangeInPages(page, address, |data|);
      var startPage := PageNo(page, address);
      var pageStart := PageAddress(page, startPage);
      var backup := ReadPrefix(address);
      hide PageStart;
      var start, num;
      SkipsMeans(page, entries, address);
      ok, start, num := ComputePagesToErase(address, |data|);
      UpdatedIsTable(page, entries, table[..], address, |data|, |mem|);
      if AllTracked(mem, page, entries) {
        ReprogrammedIsStored(mem, page, entries, address, data);
        TableStaysRight(mem, page, entries, table[..], address, data);
        EnteredTooEarly(mem, page, entries, table[..], address, |data|);
      }
      PagesAreRanges(page, address, |data|, start, num);
      PageOrder(page, address, address + |data| - 1);
      ok := EraseSome(start, num, erases);
      if !ok {
        return;
      }
      // Restore the backup, but only if the first page was erased.
      if |backup| > 0 && start == startPage {
        ok := StoreBytes(pageStart, backup);
      } else {
        ProgramNothing(flash[..], pageStart);
      }
      ok := StoreBytes(address, data);
    }

    /** A run of stores; it ends with what always erasing would have left. */
    method StoreSeveral(stores: seq<WriteOp>)
      requires Valid()
      modifies flash, table
      ensures Valid()
      ensures flash[..] == StoredAll(old(flash[..]), page, pages, stores)
      ensures flash[..] == AlwaysErasedAll(old(flash[..]), page, pages, stores)
    {
      hide AllTracked, StoredIfFits, AlwaysErasedAll, PageAddress, WordAligned, Updated, NeedsErase, Reprogrammed, RangeEnd,
        TailErased, IsTable;
      ghost var mem := flash[..];
      SkippingMakesNoDifference(mem, page, pages, stores);
      var i := 0;
      while i < |stores|
        invariant 0 <= i <= |stores| && Valid()
        invariant StoredAll(flash[..], page, pages, stores[i..]) == StoredAll(mem, page, pages, stores)
      {
        assert stores[i..][0] == stores[i] && stores[i..][1..] == stores[i + 1..];
        var ok := Store(stores[i].address, stores[i].data, true);
        i := i + 1;
      }
    }

    /** `storage1_read`. */
    method Read(address: nat, n: nat) returns (ok: bool, data: seq<byte>)
      requires Valid()
      ensures ok <==> address + n <= flash.Length
      ensures ok ==> data == flash[..][address..address + n]
    {
      ok, data := ReadBytes(address, n);
    }

    /** `storage1_clear`: stores of at most 128 erased bytes, up to the first one that would leave storage. */
    method Clear(address: nat, n: nat) returns (ok: bool)
      requires Valid()
      modifies flash, table
      ensures Valid()
      ensures ok <==> n == 0 || address + n <= flash.Length
      ensures flash[..] == Cleared(old(flash[..]), page, pages, address, ClearCount(flash.Length, address, n))
    {
      hide AllTracked, StoredIfFits, Cleared, ClearCount, PageAddress, WordAligned, Updated, NeedsErase, Reprogrammed, RangeEnd,
        TailErased, IsTable;
      ghost var mem := flash[..];
      var offset, left := 0, n;
      ok := true;
      ClearedNothing(mem, page, pages, address);
      while left > 0
        invariant Valid() && 0 <= left && offset + left == n && |mem| == PageAddress(page, pages)
        invariant ok && (left > 0 ==> offset % CLEAR_SIZE == 0) && (offset > 0 ==> address + offset <= flash.Length)
        invariant flash[..] == Cleared(mem, page, pages, address, offset)
      {
        var portion := if left >= CLEAR_SIZE then CLEAR_SIZE else left;
        ok := Store(address + offset, Repeat(ERASED, portion), true);
        ClearedMore(mem, page, pages, address, offset, portion);
        if !ok {
          CountOfCut(flash.Length, address, n, offset);
          return;
        }
        offset := offset + portion;
        left := left - portion;
      }
      CountOfWhole(flash.Length, address, n);
    }
  }

  lemma PortionAligned()
    ensures WordAligned(PORTION)
  {
  }

  lemma DroppedIsTable(page: nat, before: seq<int>, first: nat, last: nat, size: nat)
    requires page > 0 && IsTable(size, before)
    ensures IsTable(size, DroppedAll(page, before, first, last))
  {
    hide PageNo;
  }

  lemma UpdatedIsTable(page: nat, before: seq<int>, after: seq<int>, address: nat, n: nat, size: nat)
    requires page > 0 && n > 0 && address + n <= size && IsTable(size, before) && Updated(page, before, after, address, n)
    ensures IsTable(size, after)
  {
    hide PageNo, EndsPage;
    DroppedIsTable(page, before, PageNo(page, address), PageNo(page, address + n - 1), size);
    hide DroppedAll;
  }

  /** The pages to erase, as ranges of addresses. */
  lemma PagesAreRanges(page: nat, address: nat, n: nat, start: nat, num: nat)
    requires page > 0 && n > 0 && (start == PageNo(page, address) || start == PageNo(page, address) + 1)
    requires start + num == PageNo(page, address + n - 1) + 1
    ensures PageAddress(page, start)
         == if start == PageNo(page, address) then PageStart(page, address) else PageEnd(page, address)
    ensures PageAddress(page, start + num) == RangeEnd(page, address, n)
    ensures PageAddress(page, start) <= PageAddress(page, start + num)
  {
    hide PageAddress, PageNo;
    NextPage(page, PageNo(page, address));
    NextPage(page, PageNo(page, address + n - 1));
    PagesGrow(page, start, start + num);
  }

  // ---- clearing ----

  /** Storage after `n` bytes from `address` on have been cleared. */
  function Cleared(mem: seq<byte>, page: nat, pages: nat, address: nat, n: nat): (r: seq<byte>)
    requires page > 0 && |mem| == PageAddress(page, pages)
    ensures |r| == |mem|
  {
    StoredIfFits(mem, page, pages, WriteOp(address, Repeat(ERASED, n)))
  }

  /** How many bytes get cleared: all, or the full portions in front of the end of storage. */
  function ClearCount(size: nat, address: nat, n: nat): (r: nat)
    ensures r > 0 ==> address + r <= size
  {
    if n == 0 || address + n <= size then n
    else if address > size then 0
    else (size - address) / CLEAR_SIZE * CLEAR_SIZE
  }

  /** Of a range that leaves storage, the most portions of 128 bytes that fit in front of its end. */
  lemma CountIsMost(size: nat, address: nat, n: nat)
    requires n > 0 && address + n > size
    ensures var r := ClearCount(size, address, n);
      if address > size then r == 0 else r % 128 == 0 && address + r <= size < address + r + 128
  {
    if address <= size {
      var q := (size - address) / CLEAR_SIZE;
      assert q * CLEAR_SIZE % 128 == 0;
    }
  }

  lemma CountOfCut(size: nat, address: nat, n: nat, offset: nat)
    requires offset < n && offset % CLEAR_SIZE == 0 && (offset > 0 ==> address + offset <= size)
    requires address + offset + (if n - offset >= CLEAR_SIZE then CLEAR_SIZE else n - offset) > size
    ensures ClearCount(size, address, n) == offset && address + n > size
  {
    if address + offset <= size {
      DivisionUnique(size - address, CLEAR_SIZE, offset / CLEAR_SIZE, size - address - offset);
    }
  }

  lemma CountOfWhole(size: nat, address: nat, n: nat)
    ensures n == 0 || address + n <= size ==> ClearCount(size, address, n) == n
  {
  }

  lemma ClearedNothing(mem: seq<byte>, page: nat, pages: nat, address: nat)
    requires page > 0 && |mem| == PageAddress(page, pages)
    ensures Cleared(mem, page, pages, address, 0) == mem
  {
  }

  /** One more portion; beyond the end of storage it changes nothing. */
  lemma ClearedMore(mem: seq<byte>, page: nat, pages: nat, address: nat, n: nat, m: nat)
    requires page > 0 && |mem| == PageAddress(page, pages) && m > 0 && (n > 0 ==> address + n <= |mem|)
    ensures StoredIfFits(Cleared(mem, page, pages, address, n), page, pages, WriteOp(address + n, Repeat(ERASED, m)))
         == if address + n + m <= |mem| then Cleared(mem, page, pages, address, n + m) else Cleared(mem, page, pages, address, n)
  {
    hide Stored, RangeEnd, PageAddress;
    if address + n + m <= |mem| {
      RangeInStorage(page, pages, address + n, m);
      RangeInStorage(page, pages, address, n + m);
      assert Repeat(ERASED, n) + Repeat(ERASED, m) == Repeat(ERASED, n + m);
      if n > 0 {
        RangeInStorage(page, pages, address, n);
        StoredInPieces(mem, page, address, Repeat(ERASED, n), Repeat(ERASED, m));
      } else {
        assert Repeat(ERASED, n + m) == Repeat(ERASED, m);
      }
    }
  }
}
