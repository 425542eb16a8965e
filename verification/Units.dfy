/** The storage modules behind one address space, and their unit boundaries (storage_lib.c). */
module Units {

  /** A storage module: its size and its unit size, both in bytes. */
  datatype Device = Device(size: nat, unit: nat)

  /** The modules in address order. */
  type Geometry = seq<Device>

  datatype Limits = Invalid | Limits(start: nat, end: nat)

  function TotalSize(g: Geometry): nat {
    if g == [] then 0 else g[0].size + TotalSize(g[1..])
  }

  /** Every module is a whole, non-zero number of non-empty units. */
  predicate Regular(g: Geometry) {
    forall i :: 0 <= i < |g| ==> 0 < g[i].unit && 0 < g[i].size && g[i].size % g[i].unit == 0
  }

  /** Every module can be written byte by byte. */
  predicate ByteUnits(g: Geometry) {
    Regular(g) && forall i :: 0 <= i < |g| ==> g[i].unit == 1
  }

  /** `address` is where a unit begins, or the end of storage. */
  predicate IsBoundary(g: Geometry, address: nat) {
    if g == [] then address == 0
    else if address < g[0].size then g[0].unit > 0 && address % g[0].unit == 0
    else IsBoundary(g[1..], address - g[0].size)
  }

  /** The first address of the unit that holds `address`. */
  function UnitStart(g: Geometry, address: nat): (r: nat)
    requires Regular(g) && address < TotalSize(g)
    ensures r <= address
  {
    if address < g[0].size then address / g[0].unit * g[0].unit
    else g[0].size + UnitStart(g[1..], address - g[0].size)
  }

  /** The last address of the unit that holds `address`. */
  function UnitEnd(g: Geometry, address: nat): (r: nat)
    requires Regular(g) && address < TotalSize(g)
  {
    if address < g[0].size then (address / g[0].unit + 1) * g[0].unit - 1
    else g[0].size + UnitEnd(g[1..], address - g[0].size)
  }

  /** `storage_get_unit_address_limits`. */
  function UnitLimits(g: Geometry, address: nat, length: nat): Limits
    requires Regular(g)
  {
    if address + length > TotalSize(g) || length == 0 then Invalid
    else Limits(UnitStart(g, address), UnitEnd(g, address + length - 1))
  }

  lemma MulMonotone(x: int, y: int, u: nat)
    requires x <= y
    ensures x * u <= y * u
  {
  }

  /** Division is the only way to split a number into a multiple and a smaller rest. */
  lemma DivisionUnique(x: nat, u: nat, q: nat, r: nat)
    requires 0 < u && x == q * u + r && r < u
    ensures x / u == q && x % u == r
  {
    var d := x / u;
    assert x == d * u + x % u;
    if d < q {
      MulMonotone(d + 1, q, u);
    } else if q < d {
      MulMonotone(q + 1, d, u);
    }
  }

  lemma MultipleBelow(a: nat, b: nat, u: nat)
    requires u > 0 && b % u == 0 && b <= a
    ensures b <= a / u * u <= a
  {
    var q, d := b / u, a / u;
    assert b == q * u && a == d * u + a % u;
    if q <= d {
      MulMonotone(q, d, u);
    } else {
      MulMonotone(d + 1, q, u);
    }
  }

  lemma MultipleAbove(a: nat, b: nat, u: nat)
    requires u > 0 && b % u == 0 && a < b
    ensures a < (a / u + 1) * u <= b
  {
    var q, d := b / u, a / u;
    assert b == q * u && a == d * u + a % u;
    if d + 1 <= q {
      MulMonotone(d + 1, q, u);
    } else {
      MulMonotone(q, d, u);
    }
  }

  lemma MultipleOf(q: nat, u: nat)
    requires u > 0
    ensures q * u % u == 0
  {
    DivisionUnique(q * u, u, q, 0);
  }

  /** The start of a unit is a boundary, and no boundary lies between it and the address. */
  lemma {:induction false} UnitStartIsNearest(g: Geometry, address: nat, b: nat)
    requires Regular(g) && address < TotalSize(g)
    ensures IsBoundary(g, UnitStart(g, address))
    ensures IsBoundary(g, b) && b <= address ==> b <= UnitStart(g, address)
    decreases |g|
  {
    if address < g[0].size {
      MultipleOf(address / g[0].unit, g[0].unit);
      if IsBoundary(g, b) && b <= address {
        MultipleBelow(address, b, g[0].unit);
      }
    } else {
      UnitStartIsNearest(g[1..], address - g[0].size, if b >= g[0].size then b - g[0].size else 0);
    }
  }

  /** One past the end of a unit is a boundary, and no boundary lies between the address and it. */
  lemma {:induction false} UnitEndIsNearest(g: Geometry, address: nat, b: nat)
    requires Regular(g) && address < TotalSize(g)
    ensures address <= UnitEnd(g, address) < TotalSize(g)
    ensures IsBoundary(g, UnitEnd(g, address) + 1)
    ensures IsBoundary(g, b) && address < b ==> UnitEnd(g, address) < b
    decreases |g|
  {
    var d := g[0];
    if address < d.size {
      MultipleAbove(address, d.size, d.unit);
      MultipleOf(address / d.unit + 1, d.unit);
      if UnitEnd(g, address) + 1 == d.size {
        ZeroIsBoundary(g[1..]);
      }
      if IsBoundary(g, b) && address < b && b < d.size {
        MultipleAbove(address, b, d.unit);
      }
    } else {
      UnitEndIsNearest(g[1..], address - d.size, if b >= d.size then b - d.size else 0);
    }
  }

  lemma ZeroIsBoundary(g: Geometry)
    requires Regular(g)
    ensures IsBoundary(g, 0)
  {
    if g != [] {
      assert 0 < g[0].size && 0 < g[0].unit;
    }
  }

  /** The limits are the smallest run of whole units around a range, across module borders. */
  lemma LimitsAreSmallestCover(g: Geometry, address: nat, length: nat, lo: nat, hi: nat)
    requires Regular(g) && length > 0 && address + length <= TotalSize(g)
    ensures var r := UnitLimits(g, address, length);
      && r.Limits?
      && IsBoundary(g, r.start) && IsBoundary(g, r.end + 1)
      && r.start <= address && address + length <= r.end + 1 <= TotalSize(g)
      && (IsBoundary(g, lo) && IsBoundary(g, hi) && lo <= address && address + length <= hi
          ==> lo <= r.start && r.end + 1 <= hi)
  {
    UnitStartIsNearest(g, address, lo);
    UnitEndIsNearest(g, address + length - 1, hi);
  }

  /** `b` is the first unit boundary at or behind `x`. */
  ghost predicate FirstBoundary(g: Geometry, x: nat, b: nat) {
    IsBoundary(g, b) && x <= b && forall c: nat :: IsBoundary(g, c) && x <= c ==> b <= c
  }

  /** Limits end at the first boundary behind the range. */
  lemma LimitsEndAtFirst(g: Geometry, address: nat, length: nat)
    requires Regular(g) && length > 0 && address + length <= TotalSize(g)
    ensures UnitLimits(g, address, length).Limits?
    ensures FirstBoundary(g, address + length, UnitLimits(g, address, length).end + 1)
  {
    LimitsAreSmallestCover(g, address, length, 0, 0);
    var r := UnitLimits(g, address, length);
    forall c: nat | IsBoundary(g, c) && address + length <= c ensures r.end + 1 <= c {
      UnitEndIsNearest(g, address + length - 1, c);
    }
  }

  /** With units of one byte every address is a boundary. */
  lemma {:induction false} ByteBoundary(g: Geometry, address: nat)
    requires ByteUnits(g) && address <= TotalSize(g)
    ensures IsBoundary(g, address)
    decreases |g|
  {
    if g != [] && address >= g[0].size {
      ByteBoundary(g[1..], address - g[0].size);
    }
  }

  lemma {:induction false} ByteUnitStart(g: Geometry, address: nat)
    requires ByteUnits(g) && address < TotalSize(g)
    ensures UnitStart(g, address) == address && UnitEnd(g, address) == address
    decreases |g|
  {
    if address < g[0].size {
      assert address / 1 * 1 == address;
    } else {
      ByteUnitStart(g[1..], address - g[0].size);
    }
  }

  lemma {:induction false} TotalSizeSnoc(g: Geometry, i: nat)
    requires i < |g|
    ensures TotalSize(g[..i + 1]) == TotalSize(g[..i]) + g[i].size
    ensures TotalSize(g[..i + 1]) <= TotalSize(g)
    decreases i
  {
    if i == 0 {
      assert g[..1] == [g[0]] && g[..0] == [];
    } else {
      assert g[..i + 1][1..] == g[1..][..i] && g[..i][1..] == g[1..][..i - 1];
      TotalSizeSnoc(g[1..], i - 1);
    }
  }

  lemma {:induction false} UnitStartInModule(g: Geometry, i: nat, address: nat)
    requires Regular(g) && i < |g| && TotalSize(g[..i]) <= address < TotalSize(g[..i + 1]) && address < TotalSize(g)
    ensures var t := address - TotalSize(g[..i]);
            UnitStart(g, address) == t / g[i].unit * g[i].unit + TotalSize(g[..i])
    ensures var t := address - TotalSize(g[..i]);
            UnitEnd(g, address) == (t / g[i].unit + 1) * g[i].unit - 1 + TotalSize(g[..i])
    decreases i
  {
    if i == 0 {
      assert g[..1] == [g[0]] && g[..0] == [];
    } else {
      assert g[..i + 1][1..] == g[1..][..i] && g[..i][1..] == g[1..][..i - 1];
      assert TotalSize(g[..i]) == g[0].size + TotalSize(g[1..][..i - 1]);
      UnitStartInModule(g[1..], i - 1, address - g[0].size);
    }
  }

  /** The loop over the modules, as the code runs it. */
  method GetUnitAddressLimits(g: Geometry, address: nat, length: nat) returns (ok: bool, start: nat, end: nat)
    requires Regular(g)
    ensures ok <==> UnitLimits(g, address, length).Limits?
    ensures ok ==> UnitLimits(g, address, length) == Limits(start, end)
  {
    ok, start, end := false, 0, 0;
    if address + length > TotalSize(g) {
      return;
    }
    if length == 0 {
      return;
    }
    var last := address + length - 1;
    var cumulated := 0;
    var i := 0;
    assert g[..0] == [] && g[..|g|] == g;
    while i < |g|
      invariant 0 <= i <= |g| && cumulated == TotalSize(g[..i]) && cumulated <= last
      invariant address < cumulated ==> start == UnitStart(g, address)
      invariant !ok
      decreases |g| - i
    {
      TotalSizeSnoc(g, i);
      var size := g[i].size;
      if cumulated <= address < cumulated + size {
        var t := address - cumulated;
        UnitStartInModule(g, i, address);
        start := t / g[i].unit * g[i].unit + cumulated;
      }
      if cumulated <= last < cumulated + size {
        var t := last - cumulated;
        UnitStartInModule(g, i, last);
        end := (t / g[i].unit + 1) * g[i].unit - 1 + cumulated;
        ok := true;
        return;
      }
      cumulated := cumulated + size;
      i := i + 1;
    }
    assert false;
  }
}
