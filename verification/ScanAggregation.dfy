/** What becomes of the scan reports of one scan: devices, counts and an aggregated signal strength (sampling_lib.c). */
module ScanAggregation {
  import opened Bytes
  import Units

  type int8 = x: int | -0x80 <= x < 0x80

  const CHUNK_SIZE := 255
  const MAX_COUNT := 255

  datatype Report = Report(group: byte, id: u16, rssi: int8)

  /** An entry of the chunk that is stored. */
  datatype Entry = Entry(id: u16, count: byte, rssi: int8)

  // ---- what should be known of a sequence of reports ----

  /** The devices in the order in which they were first seen. */
  function Devices(reports: seq<Report>): (r: seq<u16>)
    ensures |r| <= |reports|
  {
    if reports == [] then []
    else
      var seen, last := Devices(reports[..|reports| - 1]), reports[|reports| - 1];
      if last.id in seen then seen else seen + [last.id]
  }

  /** The signal strengths reported of a device, in order. */
  function Signals(reports: seq<Report>, id: u16): (r: seq<int8>)
    ensures |r| <= |reports|
  {
    if reports == [] then []
    else
      var before, last := Signals(reports[..|reports| - 1], id), reports[|reports| - 1];
      if last.id == id then before + [last.rssi] else before
  }

  /** Those that count. */
  function Counted(reports: seq<Report>, id: u16): (r: seq<int8>)
    ensures |r| <= MAX_COUNT
  {
    var s := Signals(reports, id);
    if |s| <= MAX_COUNT then s else s[..MAX_COUNT]
  }

  predicate Distinct(s: seq<u16>) { forall i, j :: 0 <= i < j < |s| ==> s[i] != s[j] }

  lemma {:induction false} DevicesAreDistinct(reports: seq<Report>)
    ensures Distinct(Devices(reports))
    ensures forall r <- reports :: r.id in Devices(reports)
    decreases |reports|
  {
    if reports != [] {
      DevicesAreDistinct(reports[..|reports| - 1]);
      assert reports == reports[..|reports| - 1] + [reports[|reports| - 1]];
    }
  }

  /** A device has been seen exactly if there is a signal of it. */
  lemma {:induction false} SeenIffSignal(reports: seq<Report>, id: u16)
    ensures id in Devices(reports) <==> Signals(reports, id) != []
    decreases |reports|
  {
    if reports != [] {
      SeenIffSignal(reports[..|reports| - 1], id);
    }
  }

  lemma Snoc(reports: seq<Report>, r: Report, id: u16)
    ensures Devices(reports + [r]) == if r.id in Devices(reports) then Devices(reports) else Devices(reports) + [r.id]
    ensures Signals(reports + [r], id) == if r.id == id then Signals(reports, id) + [r.rssi] else Signals(reports, id)
    ensures Counted(reports + [r], id)
         == if r.id == id && |Signals(reports, id)| < MAX_COUNT then Counted(reports, id) + [r.rssi] else Counted(reports, id)
  {
    assert (reports + [r])[..|reports|] == reports;
  }

  function Sum(s: seq<int8>): int { if s == [] then 0 else Sum(s[..|s| - 1]) + s[|s| - 1] }

  function Max(s: seq<int8>): (r: int8)
    requires s != []
    ensures r in s && forall x <- s :: x <= r
  {
    if |s| == 1 then s[0]
    else
      assert s == s[..|s| - 1] + [s[|s| - 1]];
      var m := Max(s[..|s| - 1]);
      if m > s[|s| - 1] then m else s[|s| - 1]
  }

  function Min(s: seq<int8>): (r: int8)
    requires s != []
    ensures r in s && forall x <- s :: r <= x
  {
    if |s| == 1 then s[0]
    else
      assert s == s[..|s| - 1] + [s[|s| - 1]];
      var m := Min(s[..|s| - 1]);
      if m < s[|s| - 1] then m else s[|s| - 1]
  }

  function Aggregate(s: seq<int8>, useMax: bool): int
    requires s != []
  {
    if useMax then Max(s) else Sum(s)
  }

  lemma AggregateSnoc(s: seq<int8>, x: int8, useMax: bool)
    ensures Aggregate([x], useMax) == x
    ensures s != [] ==>
              Aggregate(s + [x], useMax)
              == if !useMax then Aggregate(s, useMax) + x else if Aggregate(s, useMax) > x then Aggregate(s, useMax) else x
  {
    assert (s + [x])[..|s|] == s && [x][..0] == [];
    assert Sum([]) == 0;
  }

  /** Division as the code does it: towards zero. */
  function Truncated(a: int, b: nat): int
    requires b > 0
  {
    if a >= 0 then a / b else -(-a / b)
  }

  function Abs(x: int): nat { if x < 0 then -x else x }

  /** As many whole times as `n` goes into the magnitude, with the sign of what is divided. */
  lemma TruncatesTowardsZero(a: int, n: nat)
    requires n > 0
    ensures var v := Truncated(a, n); Abs(v) * n <= Abs(a) < (Abs(v) + 1) * n && (a < 0 ==> v <= 0) && (a > 0 ==> v >= 0)
  {
    var m := Abs(a);
    assert m == (m / n) * n + m % n && (m / n + 1) * n == (m / n) * n + n;
  }

  function ToInt8(v: int): int8 { (v + 0x80) % 0x100 - 0x80 }

  function ValueOf(s: seq<int8>, useMax: bool): int
    requires s != []
  {
    if useMax then Max(s) else Truncated(Sum(s), |s|)
  }

  predicate Within(s: seq<int8>, lo: int, hi: int) { forall i :: 0 <= i < |s| ==> lo <= s[i] <= hi }

  lemma {:induction false} SumBounds(s: seq<int8>, lo: int, hi: int)
    requires Within(s, lo, hi)
    ensures lo * |s| <= Sum(s) <= hi * |s|
    decreases |s|
  {
    if s != [] {
      SumBounds(s[..|s| - 1], lo, hi);
      assert lo * |s| == lo * (|s| - 1) + lo && hi * |s| == hi * (|s| - 1) + hi;
    }
  }

  lemma TruncatedBounds(a: int, n: nat, lo: int, hi: int)
    requires n > 0 && lo * n <= a <= hi * n
    ensures lo <= Truncated(a, n) <= hi
  {
    if a >= 0 {
      QuotientBounds(a, n, lo, hi);
    } else {
      assert (-hi) * n == -(hi * n) && (-lo) * n == -(lo * n);
      QuotientBounds(-a, n, -hi, -lo);
    }
  }

  lemma QuotientBounds(a: nat, n: nat, lo: int, hi: int)
    requires n > 0 && lo * n <= a <= hi * n
    ensures lo <= a / n <= hi
  {
    var q := a / n;
    assert a == q * n + a % n;
    assert (q + 1) * n == q * n + n && (hi + 1) * n == hi * n + n;
    if q < lo {
      Units.MulMonotone(q + 1, lo, n);
    }
    if q > hi {
      Units.MulMonotone(hi + 1, q, n);
    }
  }

  /** The value of a device is its strongest counted signal, or their sum divided by their number and cut off towards zero. */
  lemma ValueMeans(s: seq<int8>, useMax: bool)
    requires s != []
    ensures useMax ==> ValueOf(s, useMax) in s && forall x <- s :: x <= ValueOf(s, useMax)
    ensures !useMax ==>
      var v, sum := ValueOf(s, useMax), Sum(s);
      Abs(v) * |s| <= Abs(sum) < (Abs(v) + 1) * |s| && (sum < 0 ==> v <= 0) && (sum > 0 ==> v >= 0)
  {
    if !useMax {
      TruncatesTowardsZero(Sum(s), |s|);
    }
    hide Truncated, Sum, Abs;
  }

  /** The value of a device lies between its weakest and its strongest counted signal, so that eight bits hold it. */
  lemma ValueIsBetween(s: seq<int8>, useMax: bool)
    requires s != []
    ensures Min(s) <= ValueOf(s, useMax) <= Max(s) && ToInt8(ValueOf(s, useMax)) == ValueOf(s, useMax)
  {
    assert forall i :: 0 <= i < |s| ==> s[i] in s;
    SumBounds(s, Min(s), Max(s));
    TruncatedBounds(Sum(s), |s|, Min(s), Max(s));
  }

  // ---- the code ----

  /** The entry, and the number kept beside it, are what the reports say of the device. */
  ghost predicate Tells(e: Entry, aggregated: int, reports: seq<Report>, useMax: bool) {
    var s := Counted(reports, e.id);
    s != [] && e.count == |s| && aggregated == Aggregate(s, useMax)
  }

  lemma TellsOnOther(e: Entry, aggregated: int, reports: seq<Report>, r: Report, useMax: bool)
    requires Tells(e, aggregated, reports, useMax) && r.id != e.id
    ensures Tells(e, aggregated, reports + [r], useMax)
  {
    Snoc(reports, r, e.id);
    hide Counted, Aggregate;
  }

  /** One more report of a known device: it counts up to the 255th. */
  lemma TellsOnSame(e: Entry, aggregated: int, reports: seq<Report>, r: Report, useMax: bool)
    requires Tells(e, aggregated, reports, useMax) && r.id == e.id
    ensures e.count < 255 ==>
              Tells(e.(count := e.count + 1),
                    if useMax then (if aggregated > r.rssi then aggregated else r.rssi) else r.rssi + aggregated,
                    reports + [r], useMax)
    ensures e.count == 255 ==> Tells(e, aggregated, reports + [r], useMax)
  {
    Snoc(reports, r, e.id);
    AggregateSnoc(Counted(reports, e.id), r.rssi, useMax);
    hide Aggregate, Signals;
  }

  lemma TellsOnFirst(reports: seq<Report>, r: Report, useMax: bool)
    requires r.id !in Devices(reports)
    ensures Tells(Entry(r.id, 1, 0), r.rssi, reports + [r], useMax)
  {
    SeenIffSignal(reports, r.id);
    Snoc(reports, r, r.id);
    AggregateSnoc([], r.rssi, useMax);
    assert Counted(reports, r.id) == [] && [] + [r.rssi] == [r.rssi];
    hide Aggregate, Signals, Devices;
  }

  /** The value of an entry is the aggregate of the counted signals of its device. */
  ghost predicate HasValue(e: Entry, reports: seq<Report>, useMax: bool) {
    var s := Counted(reports, e.id);
    s != [] && e.count == |s| && e.rssi == ValueOf(s, useMax)
  }

  lemma FinishOne(e: Entry, aggregated: int, reports: seq<Report>, useMax: bool)
    requires Tells(e, aggregated, reports, useMax)
    ensures e.count > 0
    ensures var e' := e.(rssi := ToInt8(if useMax then aggregated else Truncated(aggregated, e.count)));
            Tells(e', aggregated, reports, useMax) && HasValue(e', reports, useMax)
  {
    ValueIsBetween(Counted(reports, e.id), useMax);
    hide Counted, Truncated, ToInt8, Sum, Max, Min;
  }

  class Chunk {
    const filter: byte
    const useMax: bool
    const data: array<Entry>
    const aggregated: array<int>
    var dataCount: nat
    /** The reports of this scan that passed the filter. */
    ghost var reports: seq<Report>

    ghost predicate Valid()
      reads this, data, aggregated
    {
      && data.Length == aggregated.Length == CHUNK_SIZE
      && dataCount == (if |Devices(reports)| <= CHUNK_SIZE then |Devices(reports)| else CHUNK_SIZE)
      && (forall i :: 0 <= i < dataCount ==> data[i].id == Devices(reports)[i])
      && forall i :: 0 <= i < dataCount ==> Tells(data[i], aggregated[i], reports, useMax)
    }

    constructor (filter: byte, useMax: bool)
      ensures Valid() && reports == [] && this.filter == filter && this.useMax == useMax && fresh(data) && fresh(aggregated)
    {
      this.filter, this.useMax := filter, useMax;
      data := new Entry[CHUNK_SIZE](_ => Entry(0, 0, 0));
      aggregated := new int[CHUNK_SIZE](_ => 0);
      dataCount, reports := 0, [];
    }

    /** The place of a device in the chunk. */
    method Find(id: u16) returns (i: nat)
      requires Valid()
      ensures i <= dataCount && (i < dataCount ==> data[i].id == id)
      ensures i == dataCount ==> id !in Devices(reports)[..dataCount]
    {
      i := 0;
      while i < dataCount
        invariant 0 <= i <= dataCount && forall j :: 0 <= j < i ==> data[j].id != id
      {
        if data[i].id == id {
          return;
        }
        i := i + 1;
      }
    }

    /** `sampling_on_scan_report_callback`. */
    method OnReport(r: Report)
      requires Valid()
      modifies this, data, aggregated
      ensures Valid() && reports == if r.group == filter then old(reports) + [r] else old(reports)
    {
      if r.group != filter {
        return;
      }
      hide Devices, Tells, Distinct;
      Snoc(reports, r, r.id);
      var i := Find(r.id);
      if i < dataCount {
        CountAgain(i, r);
      } else {
        AddDevice(r);
      }
    }

    /** A device that has its entry. */
    method CountAgain(i: nat, r: Report)
      requires Valid() && i < dataCount && data[i].id == r.id && Devices(reports + [r]) == Devices(reports)
      modifies `reports, data, aggregated
      ensures Valid() && reports == old(reports) + [r]
    {
      DevicesAreDistinct(reports);
      hide Devices, Tells;
      ghost var before := reports;
      TellsOnSame(data[i], aggregated[i], before, r, useMax);
      forall k | 0 <= k < dataCount && k != i ensures Tells(data[k], aggregated[k], before + [r], useMax) {
        TellsOnOther(data[k], aggregated[k], before, r, useMax);
      }
      if data[i].count < 255 {
        aggregated[i] := if useMax then (if aggregated[i] > r.rssi then aggregated[i] else r.rssi) else r.rssi + aggregated[i];
        data[i] := data[i].(count := data[i].count + 1);
      }
      reports := reports + [r];
    }

    /** A device without an entry, new or seen when there was no place left. */
    method AddDevice(r: Report)
      requires Valid() && r.id !in Devices(reports)[..dataCount]
      modifies this, data, aggregated
      ensures Valid() && reports == old(reports) + [r]
    {
      ghost var before := reports;
      Snoc(before, r, r.id);
      hide Devices, Tells;
      forall k | 0 <= k < dataCount ensures Tells(data[k], aggregated[k], before + [r], useMax) {
        assert data[k].id == Devices(before)[..dataCount][k];
        TellsOnOther(data[k], aggregated[k], before, r, useMax);
      }
      if dataCount < CHUNK_SIZE {
        assert Devices(before)[..dataCount] == Devices(before);
        TellsOnFirst(before, r, useMax);
        aggregated[dataCount] := r.rssi;
        data[dataCount] := Entry(r.id, 1, 0);
        dataCount := dataCount + 1;
      }
      reports := reports + [r];
    }

    /** `sampling_finalize_scan_sampling_chunk`: the value of every device. */
    method Finish()
      requires Valid()
      modifies data
      ensures Valid()
      ensures forall i :: 0 <= i < dataCount ==> HasValue(data[i], reports, useMax)
    {
      hide Devices, Tells, HasValue;
      var i := 0;
      while i < dataCount
        invariant 0 <= i <= dataCount && Valid()
        invariant forall k :: 0 <= k < i ==> HasValue(data[k], reports, useMax)
      {
        FinishOne(data[i], aggregated[i], reports, useMax);
        var value := if useMax then aggregated[i] else Truncated(aggregated[i], data[i].count);
        data[i] := data[i].(rssi := ToInt8(value));
        i := i + 1;
      }
    }

    /** `sampling_setup_scan_sampling_chunk`. */
    method Setup()
      requires Valid()
      modifies this
      ensures Valid() && reports == []
    {
      dataCount, reports := 0, [];
    }
  }
}
