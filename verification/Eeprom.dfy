/** The EEPROM driver: every range is transferred page by page (eeprom_lib.c, storage2_lib.c). */
module Eeprom {
  import opened Bytes

  const PAGE_SIZE := 128

  datatype Ret = Success | InvalidParam | Failed

  /** One transfer over the serial bus. */
  datatype Transfer = Transfer(address: nat, length: nat)

  function PageOf(address: nat): nat { address / PAGE_SIZE }

  function NextPage(address: nat): (r: nat)
    ensures address < r <= address + PAGE_SIZE && r % PAGE_SIZE == 0 && PageOf(r) == PageOf(address) + 1
    ensures forall x :: address <= x < r ==> PageOf(x) == PageOf(address)
  {
    (address / PAGE_SIZE + 1) * PAGE_SIZE
  }

  /** The transfer does something, and all of it in one page. */
  predicate InPage(t: Transfer) {
    0 < t.length <= PAGE_SIZE && PageOf(t.address) == PageOf(t.address + t.length - 1)
  }

  /** The transfers go over [address, address + n), one behind the other, and none crosses a page boundary. */
  predicate Tiles(ts: seq<Transfer>, address: nat, n: nat) {
    if ts == [] then n == 0
    else
      var t := ts[|ts| - 1];
      t.length <= n && InPage(t) && t.address == address + n - t.length && Tiles(ts[..|ts| - 1], address, n - t.length)
  }

  /** How many pages a range touches. */
  function Pages(address: nat, n: nat): nat {
    if n == 0 then 0 else PageOf(address + n - 1) - PageOf(address) + 1
  }

  /** A range is left only at a page boundary, or at its end. */
  predicate AtBoundary(address: nat, done: nat, n: nat) {
    done == 0 || done == n || (address + done) % PAGE_SIZE == 0
  }

  lemma TileMore(ts: seq<Transfer>, address: nat, n: nat, t: Transfer)
    requires Tiles(ts, address, n) && InPage(t) && t.address == address + n
    ensures Tiles(ts + [t], address, n + t.length)
  {
    assert (ts + [t])[..|ts|] == ts;
  }

  /** One more transfer, to the next boundary or to the end: one more page. */
  lemma OneMorePage(address: nat, done: nat, n: nat)
    requires done < n && (done == 0 || (address + done) % PAGE_SIZE == 0)
    ensures var rest := n - done;
            var room := NextPage(address + done) - (address + done);
            var step := if rest > room then room else rest;
      && 0 < step && done + step <= n && Pages(address, done + step) == Pages(address, done) + 1
      && (done + step == n || (address + done + step) % PAGE_SIZE == 0)
      && PageOf(address + done) == PageOf(address + done + step - 1) && step <= PAGE_SIZE
  {
    var at := address + done;
    var room := NextPage(at) - at;
    var step := if n - done > room then room else n - done;
    assert PageOf(at + step - 1) == PageOf(at);
    if done > 0 {
      assert PageOf(at - 1) == PageOf(at) - 1;
    }
  }

  /** No range touches more pages than it has bytes. */
  lemma PagesAtMost(address: nat, n: nat)
    ensures Pages(address, n) <= n
  {
    if n > 0 {
      var m := n - 1;
      assert (address + m) / PAGE_SIZE <= address / PAGE_SIZE + m;
    }
  }

  lemma PagesGrow(address: nat, a: nat, b: nat)
    requires a <= b
    ensures Pages(address, a) <= Pages(address, b)
  {
  }

  /** No fewer transfers would do: a range that touches `k` pages takes at least `k` of them. */
  lemma {:induction false} TilesAtLeastPages(ts: seq<Transfer>, address: nat, n: nat)
    requires Tiles(ts, address, n)
    ensures Pages(address, n) <= |ts|
    decreases |ts|
  {
    if ts != [] {
      var t := ts[|ts| - 1];
      TilesAtLeastPages(ts[..|ts| - 1], address, n - t.length);
      if n > t.length {
        assert PageOf(t.address - 1) >= PageOf(t.address) - 1;
      }
    }
  }

  class Device {
    var memory: seq<byte>
    /** Every transfer so far, in order. */
    ghost var transfers: seq<Transfer>

    constructor (size: nat)
      ensures memory == Repeat(0xFF, size) && transfers == []
    {
      memory := Repeat(0xFF, size);
      transfers := [];
    }

    /**
     * `eeprom_store` on a bus that works for `works` more transfers. A store that breaks off has written a first part of
     * its data, up to a page boundary.
     */
    method Store(address: nat, data: seq<byte>, works: nat) returns (ret: Ret, ghost done: nat, ghost ts: seq<Transfer>)
      modifies this
      ensures ret == InvalidParam <==> address + |data| > |old(memory)|
      ensures ret == InvalidParam ==> memory == old(memory) && transfers == old(transfers)
      ensures ret != InvalidParam ==>
        && done <= |data| && memory == Write(old(memory), address, data[..done]) && AtBoundary(address, done, |data|)
        && transfers == old(transfers) + ts && Tiles(ts, address, done) && |ts| == Pages(address, done)
        && (ret == Success <==> done == |data|) && (ret == Success <==> Pages(address, |data|) <= works)
        && (ret == Failed ==> |ts| == works)
    {
      hide Write, Tiles, Pages, InPage, PageOf, NextPage, AtBoundary;
      ret, done, ts := InvalidParam, 0, [];
      if address + |data| > |memory| {
        return;
      }
      var offset, left, fuel := 0, |data|, works;
      NothingWritten(memory, address, data);
      NoTransfers(address);
      while left > 0
        invariant 0 <= left && offset + left == |data| && 0 <= offset
        invariant |memory| == |old(memory)| && memory == Write(old(memory), address, data[..offset])
        invariant transfers == old(transfers) + ts && Tiles(ts, address, offset) && |ts| == Pages(address, offset)
        invariant offset == 0 || left == 0 || (address + offset) % PAGE_SIZE == 0
        invariant fuel >= 0 && fuel + Pages(address, offset) == works
      {
        OneMorePage(address, offset, |data|);
        PagesGrow(address, offset + 1, |data|);
        if fuel == 0 {
          done, ret := offset, Failed;
          BrokenOff(address, offset, |data|);
          return;
        }
        fuel := fuel - 1;
        var at := address + offset;
        var step := NextPage(at) - at;
        step := if left > step then step else left;
        TileMore(ts, address, offset, Transfer(at, step)) by { OneTransfer(at, step); }
        memory := Write(memory, at, data[offset..offset + step]);
        ts := ts + [Transfer(at, step)];
        transfers := transfers + [Transfer(at, step)];
        left := left - step;
        offset := offset + step;
      }
      ret, done := Success, offset;
      AllDone(address, |data|);
    }

    /** `eeprom_read`. */
    method Read(address: nat, n: nat, works: nat) returns (ret: Ret, data: seq<byte>, ghost ts: seq<Transfer>)
      modifies `transfers
      ensures ret == InvalidParam <==> address + n > |memory|
      ensures ret == Success <==> address + n <= |memory| && Pages(address, n) <= works
      ensures ret == Success ==> data == memory[address..address + n]
      ensures transfers == old(transfers) + ts && (ret == Success ==> Tiles(ts, address, n))
    {
      hide Tiles, Pages, InPage, PageOf, NextPage;
      ret, data, ts := InvalidParam, [], [];
      if address + n > |memory| {
        return;
      }
      var offset, left, fuel := 0, n, works;
      NoTransfers(address);
      while left > 0
        invariant 0 <= left && offset + left == n && 0 <= offset
        invariant data == memory[address..address + offset]
        invariant transfers == old(transfers) + ts && Tiles(ts, address, offset)
        invariant offset == 0 || left == 0 || (address + offset) % PAGE_SIZE == 0
        invariant fuel >= 0 && fuel + Pages(address, offset) == works
      {
        OneMorePage(address, offset, n);
        PagesGrow(address, offset + 1, n);
        if fuel == 0 {
          ret := Failed;
          BrokenOff(address, offset, n);
          return;
        }
        fuel := fuel - 1;
        var at := address + offset;
        var step := NextPage(at) - at;
        step := if left > step then step else left;
        TileMore(ts, address, offset, Transfer(at, step)) by { OneTransfer(at, step); }
        data := data + memory[at..at + step];
        ts := ts + [Transfer(at, step)];
        transfers := transfers + [Transfer(at, step)];
        left := left - step;
        offset := offset + step;
      }
      ret := Success;
    }

    /**
     * `storage2_clear`, on a bus that works for `works` more transfers: chunks of erased bytes, as long as they fit. If the
     * bus gives up, a first part of the range is erased.
     */
    method Clear(address: nat, n: nat, works: nat) returns (ret: Ret, ghost done: nat)
      modifies this
      ensures done <= n && (ret == Success <==> done == n)
      ensures memory == Cleared(old(memory), address, done)
      ensures ret == Success ==> n == 0 || address + n <= |old(memory)|
      ensures ret == InvalidParam ==> address + n > |old(memory)|
      ensures ret == Failed ==> |transfers| == |old(transfers)| + works
      ensures |transfers| <= |old(transfers)| + done
    {
      hide Write, Pages, AtBoundary, Tiles;
      ret, done := Success, 0;
      var offset, left, fuel := 0, n, works;
      while left > 0
        invariant 0 <= left && offset + left == n && 0 <= offset && ret == Success && done == offset
        invariant |memory| == |old(memory)| && (offset > 0 ==> address + offset <= |memory|)
        invariant memory == Cleared(old(memory), address, offset)
        invariant fuel >= 0 && |transfers| == |old(transfers)| + (works - fuel) && works - fuel <= offset
      {
        var step := if left >= PAGE_SIZE then PAGE_SIZE else left;
        var at := address + offset;
        ghost var stored, ts;
        ret, stored, ts := Store(at, Repeat(0xFF, step), fuel);
        PagesAtMost(at, stored);
        if ret == InvalidParam {
          return;
        }
        ErasedFront(step, stored);
        if ret == Failed {
          done := offset + stored;
          return;
        }
        fuel := fuel - Pages(at, step);
        offset := offset + step;
        left := left - step;
        done := offset;
      }
    }
  }

  lemma ErasedFront(n: nat, k: nat)
    requires k <= n
    ensures Repeat(0xFF, n)[..k] == Repeat(0xFF, k)
  {
  }

  /** Memory with `n` bytes erased, if they are there. */
  function Cleared(mem: seq<byte>, address: nat, n: nat): (r: seq<byte>)
    ensures |r| == |mem|
  {
    if n == 0 || address + n > |mem| then mem else Write(mem, address, Repeat(0xFF, n))
  }

  lemma NothingWritten(mem: seq<byte>, address: nat, data: seq<byte>)
    requires address + |data| <= |mem|
    ensures Write(mem, address, data[..0]) == mem
  {
  }

  lemma AllDone(address: nat, n: nat)
    ensures AtBoundary(address, n, n)
  {
  }

  lemma NoTransfers(address: nat)
    ensures Tiles([], address, 0) && Pages(address, 0) == 0
  {
  }

  lemma OneTransfer(at: nat, step: nat)
    requires 0 < step <= PAGE_SIZE && PageOf(at) == PageOf(at + step - 1)
    ensures InPage(Transfer(at, step))
  {
  }

  /** Where the bus gives up, pages are missing. */
  lemma BrokenOff(address: nat, done: nat, n: nat)
    requires done < n && (done == 0 || (address + done) % PAGE_SIZE == 0)
    ensures Pages(address, done) < Pages(address, n) && AtBoundary(address, done, n)
  {
    OneMorePage(address, done, n);
    PagesGrow(address, done + 1, n);
    if done > 0 {
      assert PageOf(address + done - 1) < PageOf(address + done);
      assert PageOf(address + done) <= PageOf(address + n - 1);
    }
  }
}
