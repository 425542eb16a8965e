/** NOR flash: programming can only clear bits, erasing sets whole pages to ones (the device below storage1_lib.c). */
module Flash {
  import opened Bytes
  import opened Words
  import opened Units

  const ERASED: byte := 0xFF

  function AndNibble(x: Nibble, y: Nibble): Nibble {
    Nibble(x.b3 && y.b3, x.b2 && y.b2, x.b1 && y.b1, x.b0 && y.b0)
  }

  /** The bitwise and of two bytes. */
  function And(x: byte, y: byte): byte {
    NibbleValue(AndNibble(NibbleOf(x / 0x10), NibbleOf(y / 0x10))) * 0x10
    + NibbleValue(AndNibble(NibbleOf(x % 0x10), NibbleOf(y % 0x10)))
  }

  lemma AndOnes(x: byte)
    ensures And(x, ERASED) == x && And(ERASED, x) == x
  {
    hide NibbleValue;
    ValueOfNibble(x / 0x10);
    ValueOfNibble(x % 0x10);
    assert NibbleOf(15) == ALL;
    assert AndNibble(NibbleOf(x / 0x10), ALL) == NibbleOf(x / 0x10) && AndNibble(ALL, NibbleOf(x / 0x10)) == NibbleOf(x / 0x10);
    assert AndNibble(NibbleOf(x % 0x10), ALL) == NibbleOf(x % 0x10) && AndNibble(ALL, NibbleOf(x % 0x10)) == NibbleOf(x % 0x10);
    hide NibbleOf, AndNibble;
  }

  lemma AndZero(x: byte)
    ensures And(0, x) == 0
  {
    assert NibbleOf(0) == NONE;
    hide NibbleOf;
  }

  /** Program `data` at `address`. */
  function Program(mem: seq<byte>, address: nat, data: seq<byte>): (r: seq<byte>)
    requires address + |data| <= |mem|
    ensures |r| == |mem|
    ensures forall i :: 0 <= i < |mem| ==>
              r[i] == if address <= i < address + |data| then And(mem[i], data[i - address]) else mem[i]
  {
    seq(|mem|, i requires 0 <= i < |mem| =>
      if address <= i < address + |data| then And(mem[i], data[i - address]) else mem[i])
  }

  /** Erase the addresses [lo, hi). */
  function Erase(mem: seq<byte>, lo: nat, hi: nat): (r: seq<byte>)
    requires lo <= hi <= |mem|
    ensures |r| == |mem|
    ensures forall i :: 0 <= i < |mem| ==> r[i] == if lo <= i < hi then ERASED else mem[i]
  {
    mem[..lo] + Repeat(ERASED, hi - lo) + mem[hi..]
  }

  predicate Blank(mem: seq<byte>, lo: nat, hi: nat) {
    hi <= |mem| && forall i :: lo <= i < hi ==> mem[i] == ERASED
  }

  /** Programming erased cells stores the data. */
  lemma ProgramBlank(mem: seq<byte>, address: nat, data: seq<byte>)
    requires address + |data| <= |mem| && Blank(mem, address, address + |data|)
    ensures Program(mem, address, data) == Write(mem, address, data)
  {
    hide And;
    forall x { AndOnes(x); }
  }

  /** Padding with ones disturbs nothing around the data. */
  lemma ProgramPadded(mem: seq<byte>, address: nat, before: nat, data: seq<byte>, after: nat)
    requires address + before + |data| + after <= |mem|
    ensures Program(mem, address, Repeat(ERASED, before) + data + Repeat(ERASED, after)) == Program(mem, address + before, data)
  {
    hide And;
    forall x { AndOnes(x); }
  }

  /** Neighbouring pieces may be programmed one after the other. */
  lemma ProgramPieces(mem: seq<byte>, address: nat, a: seq<byte>, b: seq<byte>)
    requires address + |a| + |b| <= |mem|
    ensures Program(mem, address, a + b) == Program(Program(mem, address, a), address + |a|, b)
    ensures Program(mem, address, a + b) == Program(Program(mem, address + |a|, b), address, a)
  {
    hide And;
  }

  // ---- pages ----

  /** The number of the page that holds `address`. */
  function PageNo(page: nat, address: nat): nat
    requires page > 0
  {
    address / page
  }

  /** Where page number `k` begins. */
  function PageAddress(page: nat, k: nat): nat { k * page }

  /** The first address of the page that holds `address`. */
  function PageStart(page: nat, address: nat): (r: nat)
    requires page > 0
    ensures r <= address < r + page
  {
    PageAddress(page, PageNo(page, address))
  }

  function PageEnd(page: nat, address: nat): (r: nat)
    requires page > 0
    ensures address < r
  {
    PageStart(page, address) + page
  }

  /** `address` is the last one of its page. */
  predicate EndsPage(page: nat, address: nat)
    requires page > 0
  {
    address % page == page - 1
  }

  /** Page numbers compare as page starts do. */
  lemma PageOrder(page: nat, x: nat, y: nat)
    requires page > 0
    ensures PageNo(page, x) == PageNo(page, y) ==> PageStart(page, x) == PageStart(page, y) && PageEnd(page, x) == PageEnd(page, y)
    ensures PageNo(page, x) < PageNo(page, y) <==> PageEnd(page, x) <= PageStart(page, y)
    ensures PageNo(page, x) < PageNo(page, y) <==> PageEnd(page, x) <= y
    ensures x <= y ==> PageNo(page, x) <= PageNo(page, y)
  {
    var p, q := PageNo(page, x), PageNo(page, y);
    PageBounds(page, x);
    PageBounds(page, y);
    NextPage(page, p);
    NextPage(page, q);
    if p < q {
      PagesGrow(page, p + 1, q);
    } else if q < p {
      PagesGrow(page, q + 1, p);
    }
    hide PageNo, PageAddress;
  }

  lemma PageBounds(page: nat, x: nat)
    requires page > 0
    ensures PageAddress(page, PageNo(page, x)) <= x < PageAddress(page, PageNo(page, x)) + page
  {
  }

  /** Every page of storage lies in it as a whole. */
  lemma PageInStorage(page: nat, pages: nat, address: nat)
    requires page > 0 && address < PageAddress(page, pages)
    ensures PageEnd(page, address) <= PageAddress(page, pages)
  {
    if pages <= address / page {
      MulMonotone(pages, address / page, page);
    } else {
      MulMonotone(address / page + 1, pages, page);
    }
  }

  lemma NextPage(page: nat, k: nat)
    ensures PageAddress(page, k + 1) == PageAddress(page, k) + page
  {
  }

  lemma PagesGrow(page: nat, k: nat, m: nat)
    requires k <= m
    ensures PageAddress(page, k) <= PageAddress(page, m)
  {
    MulMonotone(k, m, page);
  }

  lemma WholeWords(page: nat, pages: nat)
    requires page % 4 == 0
    ensures PageAddress(page, pages) % 4 == 0
  {
    var q := page / 4;
    assert page * pages == q * pages * 4 by {
      assert page == q * 4;
    }
  }
}
