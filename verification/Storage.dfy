/** Several devices behind one address space: a range is split over them, and together they are one flat memory (storage_lib.c). */
module Storage {
  import opened Bytes
  import Eeprom

  /** What a module is asked to do: where in the module, from where in the data, how much. */
  datatype Piece = Piece(address: nat, from: nat, length: nat)

  const NO_PIECE := Piece(0, 0, 0)

  /** Where module `i` begins in the address space. */
  function Base(sizes: seq<nat>, i: nat): nat
    requires i <= |sizes|
  {
    if i == 0 then 0 else Base(sizes, i - 1) + sizes[i - 1]
  }

  function Total(sizes: seq<nat>): nat { Base(sizes, |sizes|) }

  lemma {:induction false} BaseGrows(sizes: seq<nat>, i: nat, j: nat)
    requires i <= j <= |sizes|
    ensures Base(sizes, i) <= Base(sizes, j)
    decreases j
  {
    if i < j {
      BaseGrows(sizes, i, j - 1);
    }
  }

  // ---- splitting ----

  /** How much of the range [address, address + n) lies below `bound`. */
  function Below(address: nat, n: nat, bound: nat): (r: nat)
    ensures r <= n
  {
    if bound <= address then 0 else if bound - address < n then bound - address else n
  }

  /** The part of the range that lies in the module at [base, base + size), in the module's own addresses. */
  function Part(address: nat, n: nat, base: nat, size: nat): Piece {
    var from, to := Below(address, n, base), Below(address, n, base + size);
    if from == to then NO_PIECE else Piece(address + from - base, from, to - from)
  }

  /** The pieces are the parts of the range in the modules. */
  predicate SplitOf(pieces: seq<Piece>, address: nat, n: nat, sizes: seq<nat>) {
    |pieces| == |sizes| && SplitUpTo(pieces, address, n, sizes)
  }

  predicate SplitUpTo(pieces: seq<Piece>, address: nat, n: nat, sizes: seq<nat>) {
    && |pieces| <= |sizes|
    && forall i :: 0 <= i < |pieces| ==> pieces[i] == Part(address, n, Base(sizes, i), sizes[i])
  }

  lemma SplitSnoc(pieces: seq<Piece>, address: nat, n: nat, sizes: seq<nat>)
    requires SplitUpTo(pieces, address, n, sizes) && |pieces| < |sizes|
    ensures SplitUpTo(pieces + [Part(address, n, Base(sizes, |pieces|), sizes[|pieces|])], address, n, sizes)
  {
    hide Part, Base;
  }

  /** `storage_split_to_storage_modules`. */
  method Split(address: nat, n: nat, sizes: seq<nat>) returns (pieces: seq<Piece>)
    requires address + n <= Total(sizes)
    ensures SplitOf(pieces, address, n, sizes)
  {
    hide Part, Below, Base, SplitUpTo;
    var at, left, cumulated := address, n, 0;
    pieces := [];
    var i := 0;
    NothingBelow(address, n);
    NoneSplit(address, n, sizes);
    while i < |sizes|
      invariant 0 <= i <= |sizes| && |pieces| == i && cumulated == Base(sizes, i) && left >= 0 && at >= 0
      invariant at == address + Below(address, n, cumulated) && left == n - Below(address, n, cumulated)
      invariant SplitUpTo(pieces, address, n, sizes)
    {
      var size := sizes[i];
      PartIs(address, n, cumulated, size);
      SplitSnoc(pieces, address, n, sizes);
      BaseNext(sizes, i);
      if cumulated <= at < cumulated + size && left > 0 {
        var length := if at + left <= cumulated + size then left else cumulated + size - at;
        pieces := pieces + [Piece(at - cumulated, at - address, length)];
        at := at + length;
        left := left - length;
      } else {
        pieces := pieces + [NO_PIECE];
      }
      cumulated := cumulated + size;
      i := i + 1;
    }
  }

  lemma NoneSplit(address: nat, n: nat, sizes: seq<nat>)
    ensures SplitUpTo([], address, n, sizes) && Base(sizes, 0) == 0
  {
  }

  /** Every piece lies in its module, they follow each other without gap or overlap, and together they are the whole range. */
  lemma PiecesTile(pieces: seq<Piece>, address: nat, n: nat, sizes: seq<nat>, i: nat)
    requires SplitOf(pieces, address, n, sizes) && address + n <= Total(sizes) && i < |sizes|
    ensures pieces[i].address + pieces[i].length <= sizes[i]
    ensures pieces[i].length > 0 ==> Base(sizes, i) + pieces[i].address == address + pieces[i].from
    ensures pieces[i].length > 0 ==> pieces[i].from == LengthOf(pieces, i)
    ensures LengthOf(pieces, |pieces|) == n
  {
    hide Part, Below, LengthOf;
    LengthIsBelow(pieces, address, n, sizes, i);
    LengthIsBelow(pieces, address, n, sizes, |sizes|);
    PartIs(address, n, Base(sizes, i), sizes[i]);
    AllBelow(address, n, Total(sizes));
  }

  /** The bytes in the first `k` pieces. */
  function LengthOf(pieces: seq<Piece>, k: nat): nat
    requires k <= |pieces|
  {
    if k == 0 then 0 else LengthOf(pieces, k - 1) + pieces[k - 1].length
  }

  lemma {:induction false} LengthIsBelow(pieces: seq<Piece>, address: nat, n: nat, sizes: seq<nat>, k: nat)
    requires SplitOf(pieces, address, n, sizes) && k <= |sizes|
    ensures LengthOf(pieces, k) == Below(address, n, Base(sizes, k))
    decreases k
  {
    hide Part, Below;
    if k > 0 {
      LengthIsBelow(pieces, address, n, sizes, k - 1);
      PartIs(address, n, Base(sizes, k - 1), sizes[k - 1]);
    } else {
      NothingBelow(address, n);
    }
  }

  lemma NothingBelow(address: nat, n: nat)
    ensures Below(address, n, 0) == 0
  {
  }

  /** The part, in the code's terms: what of the range is left at `base`, as far as the module goes. */
  lemma PartIs(address: nat, n: nat, base: nat, size: nat)
    ensures var done := Below(address, n, base);
            var at, left := address + done, n - done;
            var p := Part(address, n, base, size);
      && Below(address, n, base + size) == done + p.length && p.address + p.length <= size
      && (base <= at < base + size && left > 0 ==>
            p == Piece(at - base, done, if at + left <= base + size then left else base + size - at))
      && (!(base <= at < base + size && left > 0) ==> p == NO_PIECE)
      && (p.length > 0 ==> base + p.address == at && p.from == done)
  {
  }

  lemma AllBelow(address: nat, n: nat, bound: nat)
    requires address + n <= bound
    ensures Below(address, n, bound) == n
  {
  }

  // ---- one flat memory ----

  function Flat(ms: seq<seq<byte>>): seq<byte> {
    if ms == [] then [] else Flat(ms[..|ms| - 1]) + ms[|ms| - 1]
  }

  function SizesOf(ms: seq<seq<byte>>): (r: seq<nat>)
    ensures |r| == |ms| && forall i :: 0 <= i < |ms| ==> r[i] == |ms[i]|
  {
    seq(|ms|, i requires 0 <= i < |ms| => |ms[i]|)
  }

  lemma {:induction false} BaseOfPrefix(sizes: seq<nat>, k: nat, i: nat)
    requires i <= k <= |sizes|
    ensures Base(sizes[..k], i) == Base(sizes, i)
    decreases i
  {
    if i > 0 {
      BaseOfPrefix(sizes, k, i - 1);
    }
  }

  lemma {:induction false} FlatSize(ms: seq<seq<byte>>)
    ensures |Flat(ms)| == Total(SizesOf(ms))
    decreases |ms|
  {
    if ms != [] {
      var n := |ms| - 1;
      FlatSize(ms[..n]);
      BaseOfPrefix(SizesOf(ms), n, n);
      assert SizesOf(ms[..n]) == SizesOf(ms)[..n];
    }
  }

  lemma SliceFirst(x: seq<byte>, y: seq<byte>, lo: nat, n: nat)
    requires lo + n <= |x|
    ensures (x + y)[lo..lo + n] == x[lo..lo + n]
  {
  }

  lemma SliceSecond(x: seq<byte>, y: seq<byte>, lo: nat, n: nat)
    requires lo + n <= |y|
    ensures (x + y)[|x| + lo..|x| + lo + n] == y[lo..lo + n]
  {
  }

  lemma WriteFirst(x: seq<byte>, y: seq<byte>, lo: nat, data: seq<byte>)
    requires lo + |data| <= |x|
    ensures Write(x, lo, data) + y == Write(x + y, lo, data)
  {
  }

  lemma WriteSecond(x: seq<byte>, y: seq<byte>, lo: nat, data: seq<byte>)
    requires lo + |data| <= |y|
    ensures x + Write(y, lo, data) == Write(x + y, |x| + lo, data)
  {
  }

  /** All but the last module, and the last one. */
  lemma FlatSnoc(ms: seq<seq<byte>>, i: nat)
    requires i < |ms|
    ensures var n := |ms| - 1;
      && Flat(ms) == Flat(ms[..n]) + ms[n]
      && |Flat(ms[..n])| == Base(SizesOf(ms), n)
      && |Flat(ms)| == Base(SizesOf(ms), |ms|) >= Base(SizesOf(ms), i) + |ms[i]|
      && Base(SizesOf(ms[..n]), i) == Base(SizesOf(ms), i)
  {
    var n := |ms| - 1;
    assert SizesOf(ms[..n]) == SizesOf(ms)[..n];
    hide Flat, Base, SizesOf;
    FlatSize(ms);
    FlatSize(ms[..n]);
    BaseOfPrefix(SizesOf(ms), n, i);
    BaseOfPrefix(SizesOf(ms), n, n);
    BaseGrows(SizesOf(ms), i + 1, |ms|);
    FlatIs(ms);
    BaseNext(SizesOf(ms), i);
  }

  lemma FlatIs(ms: seq<seq<byte>>)
    requires ms != []
    ensures Flat(ms) == Flat(ms[..|ms| - 1]) + ms[|ms| - 1]
  {
  }

  lemma BaseNext(sizes: seq<nat>, i: nat)
    requires i < |sizes|
    ensures Base(sizes, i + 1) == Base(sizes, i) + sizes[i]
  {
  }

  /** A module read in one of its ranges yields what the flat memory holds there. */
  lemma {:induction false} FlatRead(ms: seq<seq<byte>>, i: nat, a: nat, n: nat)
    requires i < |ms| && a + n <= |ms[i]|
    ensures Base(SizesOf(ms), i) + a + n <= |Flat(ms)|
    ensures ms[i][a..a + n] == Flat(ms)[Base(SizesOf(ms), i) + a..Base(SizesOf(ms), i) + a + n]
    decreases |ms|
  {
    hide Flat, Base, SizesOf;
    var k := |ms| - 1;
    FlatSnoc(ms, i);
    if i < k {
      FlatRead(ms[..k], i, a, n);
      SliceFirst(Flat(ms[..k]), ms[k], Base(SizesOf(ms), i) + a, n);
    } else {
      SliceSecond(Flat(ms[..k]), ms[k], a, n);
    }
  }

  /** Writing to one module is writing to the flat memory. */
  lemma {:induction false} FlatWrite(ms: seq<seq<byte>>, i: nat, a: nat, data: seq<byte>)
    requires i < |ms| && a + |data| <= |ms[i]|
    ensures Base(SizesOf(ms), i) + a + |data| <= |Flat(ms)|
    ensures Flat(ms[i := Write(ms[i], a, data)]) == Write(Flat(ms), Base(SizesOf(ms), i) + a, data)
    decreases |ms|
  {
    hide Flat, Base, SizesOf, Write;
    var k := |ms| - 1;
    var ms' := ms[i := Write(ms[i], a, data)];
    FlatSnoc(ms, i);
    FlatIs(ms');
    if i < k {
      assert ms'[..k] == ms[..k][i := Write(ms[i], a, data)];
      FlatWrite(ms[..k], i, a, data);
      WriteFirst(Flat(ms[..k]), ms[k], Base(SizesOf(ms), i) + a, data);
    } else {
      assert ms'[..k] == ms[..k];
      WriteSecond(Flat(ms[..k]), ms[k], a, data);
    }
  }

  // ---- storing and reading ----

  /** Every bus works for `n` more transfers. */
  predicate Enough(works: seq<nat>, n: nat) { forall w <- works :: n <= w }

  lemma EnoughAt(works: seq<nat>, n: nat, i: nat)
    requires i < |works|
    ensures Enough(works, n) ==> n <= works[i]
  {
    assert works[i] in works;
  }

  /** What a piece, or the first part of one, adds to what is written. */
  lemma PieceStored(mem: seq<byte>, address: nat, data: seq<byte>, from: nat, n: nat, stored: nat)
    requires stored <= n && from + n <= |data| && address + |data| <= |mem|
    ensures Write(Write(mem, address, data[..from]), address + from, data[from..from + n][..stored])
         == Write(mem, address, data[..from + stored])
  {
    assert data[from..from + n][..stored] == data[from..from + stored];
  }

  class Modules {
    const devices: seq<Eeprom.Device>

    ghost predicate Valid()
      reads this, devices
    {
      forall i, j :: 0 <= i < j < |devices| ==> devices[i] != devices[j]
    }

    ghost function Contents(): (r: seq<seq<byte>>)
      reads this, devices
      ensures |r| == |devices| && forall i :: 0 <= i < |devices| ==> r[i] == devices[i].memory
    {
      seq(|devices|, i requires 0 <= i < |devices| reads this, devices => devices[i].memory)
    }

    constructor (devices: seq<Eeprom.Device>)
      requires forall i, j :: 0 <= i < j < |devices| ==> devices[i] != devices[j]
      ensures Valid() && this.devices == devices
    {
      this.devices := devices;
    }

    method Sizes() returns (sizes: seq<nat>)
      ensures sizes == SizesOf(Contents())
    {
      sizes := [];
      var i := 0;
      while i < |devices|
        invariant 0 <= i <= |devices| && sizes == SizesOf(Contents())[..i]
      {
        sizes := sizes + [|devices[i].memory|];
        i := i + 1;
      }
    }

    /** What a change of one module does to the whole. */
    twostate lemma OneChanged(i: nat)
      requires i < |devices| && old(Valid())
      requires forall j :: 0 <= j < |devices| && j != i ==> devices[j].memory == old(devices[j].memory)
      ensures Contents() == old(Contents())[i := devices[i].memory]
    {
    }

    /** A store to one module, seen as a store to the flat memory. */
    method StoreAt(i: nat, a: nat, data: seq<byte>, works: nat) returns (ret: Eeprom.Ret, ghost done: nat)
      requires Valid() && i < |devices| && a + |data| <= |devices[i].memory|
      modifies devices
      ensures Valid() && done <= |data| && ret != Eeprom.InvalidParam && (ret == Eeprom.Success <==> done == |data|)
      ensures SizesOf(Contents()) == old(SizesOf(Contents()))
      ensures Base(SizesOf(Contents()), i) + a + |data| <= |old(Flat(Contents()))|
      ensures Flat(Contents()) == Write(old(Flat(Contents())), Base(SizesOf(Contents()), i) + a, data[..done])
      ensures ret == Eeprom.Success <==> Eeprom.Pages(a, |data|) <= works
    {
      hide Write, Eeprom.Pages, Eeprom.Tiles, Flat, Base;
      ghost var ts;
      ghost var before := Contents();
      ret, done, ts := devices[i].Store(a, data, works);
      OneChanged(i);
      FlatWrite(before, i, a, data);
      FlatWrite(before, i, a, data[..done]);
      assert SizesOf(Contents()) == SizesOf(before);
    }

    /** The size of the whole. */
    method GetSize() returns (size: nat, sizes: seq<nat>)
      ensures sizes == SizesOf(Contents()) && size == |Flat(Contents())| == Total(sizes)
    {
      sizes := Sizes();
      size := 0;
      var i := 0;
      while i < |sizes|
        invariant 0 <= i <= |sizes| && size == Base(sizes, i)
      {
        size := size + sizes[i];
        i := i + 1;
      }
      FlatSize(Contents());
    }

    /** The loop over the modules. */
    method StorePieces(pieces: seq<Piece>, address: nat, data: seq<byte>, works: seq<nat>, ghost sizes: seq<nat>)
      returns (ret: Eeprom.Ret, ghost done: nat)
      requires Valid() && |works| == |devices| && sizes == SizesOf(Contents()) && address + |data| <= |Flat(Contents())|
      requires SplitOf(pieces, address, |data|, sizes)
      modifies devices
      ensures Valid() && SizesOf(Contents()) == sizes
      ensures done <= |data| && ret != Eeprom.InvalidParam && (ret == Eeprom.Success <==> done == |data|)
      ensures Flat(Contents()) == Write(old(Flat(Contents())), address, data[..done])
      ensures Enough(works, |data|) ==> ret == Eeprom.Success
    {
      hide Write, Eeprom.Pages, Eeprom.Tiles, Flat, Base, Part, Below, SplitUpTo, SizesOf, Enough;
      ghost var whole := Flat(Contents());
      ret, done := Eeprom.Success, 0;
      var i := 0;
      FlatSize(Contents());
      Eeprom.NothingWritten(whole, address, data);
      NothingBelow(address, |data|);
      NoneSplit(address, |data|, sizes);
      while i < |devices|
        invariant 0 <= i <= |devices| && Valid() && SizesOf(Contents()) == sizes && |sizes| == |devices|
        invariant done == Below(address, |data|, Base(sizes, i)) && ret == Eeprom.Success
        invariant Flat(Contents()) == Write(whole, address, data[..done])
      {
        PieceIs(pieces, address, |data|, sizes, i);
        BaseNext(sizes, i);
        var p := pieces[i];
        if p.length != 0 {
          ghost var stored;
          SizeOfModule(Contents(), i);
          ret, stored := StoreAt(i, p.address, data[p.from..p.from + p.length], works[i]);
          PieceStored(whole, address, data, p.from, p.length, stored);
          done := done + stored;
          if ret != Eeprom.Success {
            Eeprom.PagesAtMost(p.address, p.length);
            EnoughAt(works, |data|, i);
            return;
          }
        }
        i := i + 1;
      }
      AllBelow(address, |data|, Total(sizes));
    }

    /**
     * `storage_store`, on buses that work for `works[i]` more transfers each: the flat memory with the data written, or,
     * if a bus gives up, with a first part of the data written.
     */
    method Store(address: nat, data: seq<byte>, works: seq<nat>) returns (ret: Eeprom.Ret, ghost done: nat)
      requires Valid() && |works| == |devices|
      modifies devices
      ensures Valid() && SizesOf(Contents()) == old(SizesOf(Contents()))
      ensures ret == Eeprom.InvalidParam <==> address + |data| > |old(Flat(Contents()))|
      ensures ret == Eeprom.InvalidParam ==> Contents() == old(Contents())
      ensures ret != Eeprom.InvalidParam ==>
        && done <= |data| && (ret == Eeprom.Success <==> done == |data|)
        && Flat(Contents()) == Write(old(Flat(Contents())), address, data[..done])
      ensures ret != Eeprom.InvalidParam && Enough(works, |data|) ==> ret == Eeprom.Success
    {
      hide Write, Eeprom.Pages, Eeprom.Tiles, Flat, Base, Part, Below, SplitUpTo, SizesOf, Enough;
      var size, sizes := GetSize();
      ret, done := Eeprom.InvalidParam, 0;
      if address + |data| > size {
        return;
      }
      ghost var whole := Flat(Contents());
      Eeprom.NothingWritten(whole, address, data);
      ret := Eeprom.Success;
      if |data| == 0 {
        return;
      }
      var pieces := Split(address, |data|, sizes);
      ret, done := StorePieces(pieces, address, data, works, sizes);
    }

    /** `storage_read`. */
    method Read(address: nat, n: nat, works: seq<nat>) returns (ret: Eeprom.Ret, data: seq<byte>)
      requires Valid() && |works| == |devices|
      modifies devices
      ensures Valid() && Contents() == old(Contents())
      ensures ret == Eeprom.InvalidParam <==> address + n > |Flat(Contents())|
      ensures ret == Eeprom.Success ==> data == Flat(Contents())[address..address + n]
      ensures ret != Eeprom.InvalidParam && Enough(works, n) ==> ret == Eeprom.Success
    {
      hide Eeprom.Pages, Eeprom.Tiles, Flat, Base, Part, Below, SplitUpTo, SizesOf, Enough;
      var size, sizes := GetSize();
      ret, data := Eeprom.InvalidParam, [];
      if address + n > size {
        return;
      }
      ret := Eeprom.Success;
      if n == 0 {
        return;
      }
      var pieces := Split(address, n, sizes);
      var i := 0;
      NothingBelow(address, n);
      NoneSplit(address, n, sizes);
      ghost var contents := Contents();
      while i < |devices|
        invariant 0 <= i <= |devices| && Valid() && Contents() == contents && ret == Eeprom.Success
        invariant |data| == Below(address, n, Base(sizes, i)) && data == Flat(contents)[address..address + |data|]
      {
        PieceIs(pieces, address, n, sizes, i);
        BaseNext(sizes, i);
        var p := pieces[i];
        if p.length != 0 {
          var part;
          ghost var ts;
          SizeOfModule(contents, i);
          assert devices[i].memory == contents[i];
          ret, part, ts := devices[i].Read(p.address, p.length, works[i]);
          assert Contents() == contents;
          if ret != Eeprom.Success {
            Eeprom.PagesAtMost(p.address, p.length);
            EnoughAt(works, n, i);
            return;
          }
          FlatRead(contents, i, p.address, p.length);
          data := data + part;
        }
        i := i + 1;
      }
      AllBelow(address, n, Total(sizes));
    }

    /** The loop over the modules. */
    method ClearPieces(pieces: seq<Piece>, address: nat, n: nat, works: seq<nat>, ghost sizes: seq<nat>)
      returns (ret: Eeprom.Ret, ghost done: nat)
      requires Valid() && |works| == |devices| && sizes == SizesOf(Contents()) && address + n <= |Flat(Contents())|
      requires SplitOf(pieces, address, n, sizes)
      modifies devices
      ensures Valid() && SizesOf(Contents()) == sizes
      ensures done <= n && ret != Eeprom.InvalidParam && (ret == Eeprom.Success <==> done == n)
      ensures Flat(Contents()) == Write(old(Flat(Contents())), address, Repeat(0xFF, done))
      ensures Enough(works, n) ==> ret == Eeprom.Success
    {
      hide Write, Flat, Base, Part, Below, SplitUpTo, SizesOf, Repeat, Enough;
      ghost var whole := Flat(Contents());
      ret, done := Eeprom.Success, 0;
      var i := 0;
      FlatSize(Contents());
      NothingErased(whole, address);
      NothingBelow(address, n);
      NoneSplit(address, n, sizes);
      while i < |devices|
        invariant 0 <= i <= |devices| && Valid() && SizesOf(Contents()) == sizes && |sizes| == |devices|
        invariant done == Below(address, n, Base(sizes, i)) && done <= n && ret == Eeprom.Success
        invariant Flat(Contents()) == Write(whole, address, Repeat(0xFF, done))
      {
        PieceIs(pieces, address, n, sizes, i);
        BaseNext(sizes, i);
        var p := pieces[i];
        if p.length != 0 {
          ghost var erased;
          SizeOfModule(Contents(), i);
          ret, erased := ClearAt(i, p.address, p.length, works[i]);
          MoreErased(whole, address, n, p.from, erased);
          done := done + erased;
          if ret != Eeprom.Success {
            EnoughAt(works, n, i);
            return;
          }
        }
        i := i + 1;
      }
      AllBelow(address, n, Total(sizes));
    }

    /** `storage_clear`, on buses that work for `works[i]` more transfers each. */
    method Clear(address: nat, n: nat, works: seq<nat>) returns (ret: Eeprom.Ret, ghost done: nat)
      requires Valid() && |works| == |devices|
      modifies devices
      ensures Valid() && SizesOf(Contents()) == old(SizesOf(Contents()))
      ensures ret == Eeprom.InvalidParam <==> address + n > |old(Flat(Contents()))|
      ensures ret == Eeprom.InvalidParam ==> Contents() == old(Contents())
      ensures ret != Eeprom.InvalidParam ==>
        && done <= n && (ret == Eeprom.Success <==> done == n)
        && Flat(Contents()) == Write(old(Flat(Contents())), address, Repeat(0xFF, done))
      ensures ret != Eeprom.InvalidParam && Enough(works, n) ==> ret == Eeprom.Success
    {
      hide Write, Flat, Base, Part, Below, SplitUpTo, SizesOf, Repeat, Enough;
      var size, sizes := GetSize();
      ret, done := Eeprom.InvalidParam, 0;
      if address + n > size {
        return;
      }
      ret := Eeprom.Success;
      if n == 0 {
        NothingErased(Flat(Contents()), address);
        return;
      }
      var pieces := Split(address, n, sizes);
      ret, done := ClearPieces(pieces, address, n, works, sizes);
    }

    /** Clearing a range of one module, seen as a store to the flat memory. */
    method ClearAt(i: nat, a: nat, n: nat, works: nat) returns (ret: Eeprom.Ret, ghost done: nat)
      requires Valid() && i < |devices| && a + n <= |devices[i].memory| && n > 0
      modifies devices
      ensures Valid() && done <= n && ret != Eeprom.InvalidParam && (ret == Eeprom.Success <==> done == n)
      ensures ret != Eeprom.Success ==> works < n
      ensures SizesOf(Contents()) == old(SizesOf(Contents()))
      ensures Base(SizesOf(Contents()), i) + a + n <= |old(Flat(Contents()))|
      ensures Flat(Contents()) == Write(old(Flat(Contents())), Base(SizesOf(Contents()), i) + a, Repeat(0xFF, done))
    {
      hide Write, Flat, Base, Repeat;
      ghost var before := Contents();
      ret, done := devices[i].Clear(a, n, works);
      OneChanged(i);
      FlatWrite(before, i, a, Repeat(0xFF, n));
      FlatWrite(before, i, a, Repeat(0xFF, done));
      ClearedIsWrite(before[i], a, done);
      assert SizesOf(Contents()) == SizesOf(before);
    }
  }

  lemma ClearedIsWrite(mem: seq<byte>, a: nat, n: nat)
    requires a + n <= |mem|
    ensures Eeprom.Cleared(mem, a, n) == Write(mem, a, Repeat(0xFF, n))
  {
  }

  lemma NothingErased(mem: seq<byte>, address: nat)
    requires address <= |mem|
    ensures Write(mem, address, Repeat(0xFF, 0)) == mem
  {
  }

  /** A further part erased behind what has been. */
  lemma MoreErased(whole: seq<byte>, address: nat, n: nat, from: nat, k: nat)
    requires address + n <= |whole| && from + k <= n
    ensures Write(Write(whole, address, Repeat(0xFF, from)), address + from, Repeat(0xFF, k))
         == Write(whole, address, Repeat(0xFF, from + k))
  {
  }

  lemma SizeOfModule(ms: seq<seq<byte>>, i: nat)
    requires i < |ms|
    ensures |SizesOf(ms)| == |ms| && SizesOf(ms)[i] == |ms[i]|
  {
  }

  /** One piece, in terms of what lies below the module and what has been done. */
  lemma PieceIs(pieces: seq<Piece>, address: nat, n: nat, sizes: seq<nat>, i: nat)
    requires SplitOf(pieces, address, n, sizes) && i < |sizes|
    ensures i < |pieces| && pieces[i].address + pieces[i].length <= sizes[i]
    ensures Below(address, n, Base(sizes, i) + sizes[i]) == Below(address, n, Base(sizes, i)) + pieces[i].length
    ensures pieces[i].length > 0 ==>
              && pieces[i].from == Below(address, n, Base(sizes, i))
              && Base(sizes, i) + pieces[i].address == address + pieces[i].from
    ensures pieces[i].from + pieces[i].length <= n
  {
    assert pieces[i] == Part(address, n, Base(sizes, i), sizes[i]);
    hide Part, Below, Base, SplitUpTo;
    PartIs(address, n, Base(sizes, i), sizes[i]);
  }
}
