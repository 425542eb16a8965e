/** Bytes, byte ranges of a flat memory, and the big-endian integers the badge stores in it. */
module Bytes {

  type byte = x: int | 0 <= x < 0x100
  type u16 = x: int | 0 <= x < 0x1_0000

  /** One physical write: `data` goes to the addresses starting at `address`. */
  datatype WriteOp = WriteOp(address: nat, data: seq<byte>)

  /** `data` stands in `mem` at `address`. */
  predicate Holds(mem: seq<byte>, address: nat, data: seq<byte>) {
    address + |data| <= |mem| && mem[address..address + |data|] == data
  }

  function Write(mem: seq<byte>, address: nat, data: seq<byte>): (r: seq<byte>)
    requires address + |data| <= |mem|
    ensures |r| == |mem|
    ensures forall i :: 0 <= i < |mem| ==>
              r[i] == if address <= i < address + |data| then data[i - address] else mem[i]
  {
    mem[..address] + data + mem[address + |data|..]
  }

  /** Two memories of one size that agree on [lo, hi). */
  ghost predicate Agree(m: seq<byte>, m': seq<byte>, lo: nat, hi: nat) {
    |m| == |m'| && hi <= |m| && forall i :: lo <= i < hi ==> m[i] == m'[i]
  }

  lemma HoldsInAgreeing(m: seq<byte>, m': seq<byte>, lo: nat, hi: nat, address: nat, data: seq<byte>)
    requires Agree(m, m', lo, hi) && lo <= address && address + |data| <= hi
    ensures Holds(m, address, data) <==> Holds(m', address, data)
  {
    assert m[address..address + |data|] == m'[address..address + |data|];
  }

  lemma HoldsWritten(mem: seq<byte>, address: nat, data: seq<byte>)
    requires address + |data| <= |mem|
    ensures Holds(Write(mem, address, data), address, data)
  {
    assert Write(mem, address, data)[address..address + |data|] == data;
  }

  lemma HoldsSplit(mem: seq<byte>, address: nat, a: seq<byte>, b: seq<byte>)
    ensures Holds(mem, address, a + b) <==> Holds(mem, address, a) && Holds(mem, address + |a|, b)
  {
    if address + |a| + |b| <= |mem| {
      var whole := mem[address..address + |a + b|];
      assert whole[..|a|] == mem[address..address + |a|];
      assert whole[|a|..] == mem[address + |a|..address + |a| + |b|];
      assert (a + b)[..|a|] == a && (a + b)[|a|..] == b;
      assert whole == whole[..|a|] + whole[|a|..];
    }
  }

  predicate Fits(mem: seq<byte>, w: WriteOp) {
    w.address + |w.data| <= |mem|
  }

  predicate AllFit(size: nat, ws: seq<WriteOp>) {
    forall i :: 0 <= i < |ws| ==> ws[i].address + |ws[i].data| <= size
  }

  /** The memory after the writes `ws`, the first one first. */
  function Apply(mem: seq<byte>, ws: seq<WriteOp>): (r: seq<byte>)
    requires AllFit(|mem|, ws)
    ensures |r| == |mem|
    decreases |ws|
  {
    if ws == [] then mem
    else Apply(Write(mem, ws[0].address, ws[0].data), ws[1..])
  }

  lemma ApplyNothing(mem: seq<byte>)
    ensures Apply(mem, []) == mem
  {
  }

  /** Every write of `ws` lies inside [lo, hi) or inside [lo2, hi2). */
  predicate Within(ws: seq<WriteOp>, lo: nat, hi: nat, lo2: nat, hi2: nat) {
    forall i :: 0 <= i < |ws| ==>
      (lo <= ws[i].address && ws[i].address + |ws[i].data| <= hi)
      || (lo2 <= ws[i].address && ws[i].address + |ws[i].data| <= hi2)
  }

  /** Outside [lo, hi) and [lo2, hi2) the two memories are the same. */
  ghost predicate ChangedOnly(m: seq<byte>, m': seq<byte>, lo: nat, hi: nat, lo2: nat, hi2: nat) {
    |m| == |m'| && forall i :: 0 <= i < |m| && !(lo <= i < hi) && !(lo2 <= i < hi2) ==> m[i] == m'[i]
  }

  lemma {:induction false} ApplyWithin(mem: seq<byte>, ws: seq<WriteOp>, lo: nat, hi: nat, lo2: nat, hi2: nat)
    requires AllFit(|mem|, ws) && Within(ws, lo, hi, lo2, hi2)
    ensures ChangedOnly(mem, Apply(mem, ws), lo, hi, lo2, hi2)
    decreases |ws|
  {
    if ws != [] {
      ApplyWithin(Write(mem, ws[0].address, ws[0].data), ws[1..], lo, hi, lo2, hi2);
    }
  }

  lemma {:induction false} ApplyConcat(mem: seq<byte>, a: seq<WriteOp>, b: seq<WriteOp>)
    requires AllFit(|mem|, a) && AllFit(|mem|, b)
    ensures AllFit(|mem|, a + b)
    ensures Apply(mem, a + b) == Apply(Apply(mem, a), b)
    decreases |a|
  {
    if a == [] {
      assert a + b == b;
    } else {
      assert (a + b)[0] == a[0] && (a + b)[1..] == a[1..] + b;
      ApplyConcat(Write(mem, a[0].address, a[0].data), a[1..], b);
    }
  }

  lemma ApplySnoc(mem: seq<byte>, ws: seq<WriteOp>, w: WriteOp)
    requires AllFit(|mem|, ws) && Fits(mem, w)
    ensures AllFit(|mem|, ws + [w])
    ensures Apply(mem, ws + [w]) == Write(Apply(mem, ws), w.address, w.data)
  {
    ApplyConcat(mem, ws, [w]);
    var m := Apply(mem, ws);
    assert [w][1..] == [];
    assert Apply(Write(m, w.address, w.data), []) == Write(m, w.address, w.data);
  }

  function Repeat(b: byte, n: nat): (r: seq<byte>)
    ensures |r| == n && forall i :: 0 <= i < n ==> r[i] == b
  {
    seq(n, i => b)
  }

  // ---- numbers in bytes ----

  predicate U8At(b: seq<byte>, i: nat, n: int) { i < |b| && n == b[i] }

  predicate U16At(b: seq<byte>, i: nat, n: int) {
    i + 2 <= |b| && n == (b[i] as int) * 0x100 + b[i + 1] as int
  }

  predicate U32At(b: seq<byte>, i: nat, n: int) {
    && i + 4 <= |b|
    && n == (b[i] as int) * 0x100_0000 + (b[i + 1] as int) * 0x1_0000 + (b[i + 2] as int) * 0x100 + b[i + 3] as int
  }

  // ---- big-endian integers ----

  function Encode16(n: nat): (r: seq<byte>)
    ensures |r| == 2
  {
    [n / 0x100 % 0x100, n % 0x100]
  }

  function Decode16(s: seq<byte>): u16
    requires |s| == 2
  {
    var hi: int, lo: int := s[0], s[1];
    hi * 0x100 + lo
  }

  function Encode32(n: nat): (r: seq<byte>)
    ensures |r| == 4
  {
    [n / 0x100_0000 % 0x100, n / 0x1_0000 % 0x100, n / 0x100 % 0x100, n % 0x100]
  }

  function Decode32(s: seq<byte>): (r: nat)
    requires |s| == 4
    ensures r < 0x1_0000_0000
  {
    var a: int, b: int, c: int, d: int := s[0], s[1], s[2], s[3];
    a * 0x100_0000 + b * 0x1_0000 + c * 0x100 + d
  }

  lemma Decode16Encode16(n: u16)
    ensures Decode16(Encode16(n)) == n
  {
  }

  lemma Decode32Encode32(n: nat)
    requires n < 0x1_0000_0000
    ensures Decode32(Encode32(n)) == n
  {
    var q1, q2, q3 := n / 0x100, n / 0x1_0000, n / 0x100_0000;
    assert n == 0x100 * q1 + n % 0x100;
    assert q2 == q1 / 0x100 && q1 == 0x100 * q2 + q1 % 0x100;
    assert q3 == q2 / 0x100 && q2 == 0x100 * q3 + q2 % 0x100;
    assert q3 < 0x100;
  }

  lemma Encode16Decode16(b: seq<byte>)
    requires |b| == 2
    ensures Encode16(Decode16(b)) == b
  {
    var hi: int, lo: int := b[0], b[1];
    assert (hi * 0x100 + lo) / 0x100 == hi;
  }

  lemma Encode32Decode32(b: seq<byte>)
    requires |b| == 4
    ensures Encode32(Decode32(b)) == b
  {
    var a: int, c: int, d: int, e: int := b[0], b[1], b[2], b[3];
    var n := a * 0x100_0000 + c * 0x1_0000 + d * 0x100 + e;
    assert n / 0x100 == a * 0x1_0000 + c * 0x100 + d;
    assert n / 0x1_0000 == a * 0x100 + c;
    assert n / 0x100_0000 == a;
  }
}
