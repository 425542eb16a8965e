/** Horner's scheme over any carrier, with the two facts the checksum needs. */
module Horner {

  function Eval<T>(times: T -> T, add: (T, T) -> T, r: T, p: seq<T>): T
    decreases |p|
  {
    if p == [] then r else add(times(Eval(times, add, r, p[..|p| - 1])), p[|p| - 1])
  }

  function Sum<T>(add: (T, T) -> T, p: seq<T>, q: seq<T>): (s: seq<T>)
    requires |p| == |q|
    ensures |s| == |p| && forall i :: 0 <= i < |p| ==> s[i] == add(p[i], q[i])
  {
    seq(|p|, i requires 0 <= i < |p| => add(p[i], q[i]))
  }

  ghost predicate Distributes<T(!new)>(times: T -> T, add: (T, T) -> T) {
    && (forall a, b :: times(add(a, b)) == add(times(a), times(b)))
    && (forall a, b, c, d :: add(add(a, b), add(c, d)) == add(add(a, c), add(b, d)))
  }

  lemma {:induction false} EvalConcat<T>(times: T -> T, add: (T, T) -> T, r: T, p: seq<T>, q: seq<T>)
    ensures Eval(times, add, r, p + q) == Eval(times, add, Eval(times, add, r, p), q)
    decreases |q|
  {
    if q == [] {
      assert p + q == p;
    } else {
      assert (p + q)[..|p + q| - 1] == p + q[..|q| - 1];
      EvalConcat(times, add, r, p, q[..|q| - 1]);
    }
  }

  lemma {:induction false} EvalLinear<T(!new)>(
    times: T -> T, add: (T, T) -> T, r: T, s: T, p: seq<T>, q: seq<T>)
    requires |p| == |q| && Distributes(times, add)
    ensures Eval(times, add, add(r, s), Sum(add, p, q)) == add(Eval(times, add, r, p), Eval(times, add, s, q))
    decreases |p|
  {
    if p != [] {
      var n := |p| - 1;
      assert Sum(add, p, q)[..n] == Sum(add, p[..n], q[..n]);
      EvalLinear(times, add, r, s, p[..n], q[..n]);
    }
  }
}

/** The register of CRC-16-CCITT, one byte at a time, as arithmetic on bits. */
module CrcRegister {
  import opened Words

  /** A byte in the low half of a word. */
  function ByteWord(hi: Nibble, lo: Nibble): Word { Word(NONE, NONE, hi, lo) }

  /** The register after one more byte: swap the halves, add the byte, fold the feedback taps in. */
  function Step(crc: Word, b: Word): Word {
    var c1 := Or(ShiftRight8(crc), ShiftLeft8(crc));
    var c2 := Xor(c1, b);
    var c3 := Xor(c2, ShiftRight4(LowByte(c2)));
    var c4 := Xor(c3, ShiftLeft4(ShiftLeft8(c3)));
    Xor(c4, ShiftLeft1(ShiftLeft4(LowByte(c4))))
  }

  function OrNibble(x: Nibble, y: Nibble): Nibble {
    Nibble(x.b3 || y.b3, x.b2 || y.b2, x.b1 || y.b1, x.b0 || y.b0)
  }

  function Or(x: Word, y: Word): Word {
    Word(OrNibble(x.n3, y.n3), OrNibble(x.n2, y.n2), OrNibble(x.n1, y.n1), OrNibble(x.n0, y.n0))
  }

  /** r * x reduced by x^16 + x^12 + x^5 + 1 (ITU-T V.41, section 2). */
  function TimesX(r: Word): Word {
    if r.n3.b3 then Xor(ShiftLeft1(r), GENERATOR) else ShiftLeft1(r)
  }

  /** x^12 + x^5 + 1, what x^16 is congruent to. */
  const GENERATOR := Word(
    Nibble(false, false, false, true), NONE, Nibble(false, false, true, false), Nibble(false, false, false, true))

  /** One step of long division: bring the next coefficient down. */
  function Shift(r: Word, c: Word): Word { Xor(TimesX(r), c) }

  function Coefficient(bit: bool): Word { Word(NONE, NONE, NONE, Nibble(false, false, false, bit)) }

  /** The four coefficients of a nibble, highest power first. */
  function BitsOfNibble(n: Nibble): (p: seq<Word>)
    ensures |p| == 4
  {
    [Coefficient(n.b3), Coefficient(n.b2), Coefficient(n.b1), Coefficient(n.b0)]
  }

  function ShiftNibbleIn(r: Word, n: Nibble): Word {
    Shift(Shift(Shift(Shift(r, Coefficient(n.b3)), Coefficient(n.b2)), Coefficient(n.b1)), Coefficient(n.b0))
  }

  // Closed forms, nibble by nibble.

  lemma TimesXForm(r: Word)
    ensures TimesX(r) == Word(
              Nibble(r.n3.b2, r.n3.b1, r.n3.b0, r.n2.b3 != r.n3.b3),
              ShiftNibble(r.n2, r.n1.b3),
              Nibble(r.n1.b2, r.n1.b1, r.n1.b0 != r.n3.b3, r.n0.b3),
              ShiftNibble(r.n0, r.n3.b3))
  {
  }

  /** r * x^4 + n, reduced. */
  function NibbleIn(r: Word, n: Nibble): Word {
    Word(XorNibble(r.n2, r.n3),
         XorNibble(r.n1, Nibble(false, false, false, r.n3.b3)),
         XorNibble(r.n0, ShiftNibble(r.n3, false)),
         XorNibble(r.n3, n))
  }

  /** r * x + bit, reduced. */
  function BitIn(r: Word, bit: bool): Word {
    Word(Nibble(r.n3.b2, r.n3.b1, r.n3.b0, r.n2.b3 != r.n3.b3),
         ShiftNibble(r.n2, r.n1.b3),
         Nibble(r.n1.b2, r.n1.b1, r.n1.b0 != r.n3.b3, r.n0.b3),
         Nibble(r.n0.b2, r.n0.b1, r.n0.b0, r.n3.b3 != bit))
  }

  lemma ShiftForm(r: Word, bit: bool)
    ensures Shift(r, Coefficient(bit)) == BitIn(r, bit)
  {
    TimesXForm(r);
  }

  /** r * x^2 + c1 * x + c0, reduced. */
  function PairIn(r: Word, c1: bool, c0: bool): Word {
    Word(Nibble(r.n3.b1, r.n3.b0, r.n2.b3 != r.n3.b3, r.n2.b2 != r.n3.b2),
         Nibble(r.n2.b1, r.n2.b0, r.n1.b3, r.n1.b2),
         Nibble(r.n1.b1, r.n1.b0 != r.n3.b3, r.n0.b3 != r.n3.b2, r.n0.b2),
         Nibble(r.n0.b1, r.n0.b0, r.n3.b3 != c1, r.n3.b2 != c0))
  }

  lemma TwoBits(r: Word, c1: bool, c0: bool)
    ensures BitIn(BitIn(r, c1), c0) == PairIn(r, c1, c0)
  {
  }

  lemma TwoShifts(r: Word, c1: bool, c0: bool)
    ensures Shift(Shift(r, Coefficient(c1)), Coefficient(c0)) == PairIn(r, c1, c0)
  {
    hide Shift, Coefficient, BitIn, PairIn;
    ShiftForm(r, c1);
    ShiftForm(BitIn(r, c1), c0);
    TwoBits(r, c1, c0);
  }

  lemma TwoPairs(r: Word, n: Nibble)
    ensures PairIn(PairIn(r, n.b3, n.b2), n.b1, n.b0) == NibbleIn(r, n)
  {
  }

  lemma FourShifts(r: Word, n: Nibble)
    ensures ShiftNibbleIn(r, n) == NibbleIn(r, n)
  {
    hide Shift, PairIn, NibbleIn;
    TwoShifts(r, n.b3, n.b2);
    TwoShifts(PairIn(r, n.b3, n.b2), n.b1, n.b0);
    TwoPairs(r, n);
  }

  /** The step, nibble by nibble. */
  function ByteIn(crc: Word, hi: Nibble, lo: Nibble): Word {
    var t1 := XorNibble(crc.n3, hi);
    var t0 := XorNibble(XorNibble(crc.n2, lo), t1);
    Word(XorNibble(XorNibble(crc.n1, t0), Nibble(false, false, false, t1.b3)),
         XorNibble(crc.n0, ShiftNibble(t1, t0.b3)),
         XorNibble(t1, ShiftNibble(t0, false)),
         t0)
  }

  lemma StepForm(crc: Word, hi: Nibble, lo: Nibble)
    ensures Step(crc, ByteWord(hi, lo)) == ByteIn(crc, hi, lo)
  {
    var b := ByteWord(hi, lo);
    var c1 := Or(ShiftRight8(crc), ShiftLeft8(crc));
    assert c1 == Word(crc.n1, crc.n0, crc.n3, crc.n2);
    var c2 := Xor(c1, b);
    assert c2 == Word(crc.n1, crc.n0, XorNibble(crc.n3, hi), XorNibble(crc.n2, lo));
    var t1 := XorNibble(crc.n3, hi);
    var t0 := XorNibble(XorNibble(crc.n2, lo), t1);
    var c3 := Xor(c2, ShiftRight4(LowByte(c2)));
    assert c3 == Word(crc.n1, crc.n0, t1, t0);
    var c4 := Xor(c3, ShiftLeft4(ShiftLeft8(c3)));
    assert c4 == Word(XorNibble(crc.n1, t0), crc.n0, t1, t0);
    hide Or, XorNibble;
  }

  lemma TimesXLinear(a: Word, b: Word)
    ensures TimesX(Xor(a, b)) == Xor(TimesX(a), TimesX(b))
  {
    hide TimesX;
    TimesXForm(a);
    TimesXForm(b);
    TimesXForm(Xor(a, b));
  }

  lemma XorShuffle(a: Word, b: Word, c: Word, d: Word)
    ensures Xor(Xor(a, b), Xor(c, d)) == Xor(Xor(a, c), Xor(b, d))
  {
  }

  lemma NibbleInLinear(a: Word, b: Word)
    ensures NibbleIn(Xor(a, b), NONE) == Xor(NibbleIn(a, NONE), NibbleIn(b, NONE))
  {
  }

  /** Eight steps of the division are one step of the register, plus the byte brought down. */
  lemma EightShifts(r: Word, hi: Nibble, lo: Nibble)
    ensures ShiftNibbleIn(ShiftNibbleIn(r, hi), lo) == Xor(Step(r, ZERO), ByteWord(hi, lo))
  {
    hide Step, ShiftNibbleIn, NibbleIn, ByteIn;
    FourShifts(r, hi);
    FourShifts(NibbleIn(r, hi), lo);
    StepForm(r, NONE, NONE);
    TwoNibbles(r, hi, lo);
  }

  lemma TwoNibbles(r: Word, hi: Nibble, lo: Nibble)
    ensures NibbleIn(NibbleIn(r, hi), lo) == Xor(ByteIn(r, NONE, NONE), ByteWord(hi, lo))
  {
    var x, y := NibbleIn(NibbleIn(r, hi), lo), Xor(ByteIn(r, NONE, NONE), ByteWord(hi, lo));
    assert x.n0 == y.n0;
    assert x.n1 == y.n1;
    assert x.n2 == y.n2;
  }

  lemma StepByNibbles(r: Word)
    ensures Step(r, ZERO) == NibbleIn(NibbleIn(r, NONE), NONE)
  {
    hide Step, ShiftNibbleIn;
    EightShifts(r, NONE, NONE);
    FourShifts(r, NONE);
    FourShifts(NibbleIn(r, NONE), NONE);
  }

  lemma XorZero(a: Word)
    ensures Xor(a, ZERO) == a && Xor(ZERO, a) == a
  {
  }

  lemma XorAssociative(a: Word, b: Word, c: Word)
    ensures Xor(Xor(a, b), c) == Xor(a, Xor(b, c))
  {
  }

  lemma StepLinear(a: Word, b: Word)
    ensures Step(Xor(a, b), ZERO) == Xor(Step(a, ZERO), Step(b, ZERO))
  {
    hide Step, NibbleIn, Xor;
    StepByNibbles(a);
    StepByNibbles(b);
    StepByNibbles(Xor(a, b));
    NibbleInLinear(a, b);
    NibbleInLinear(NibbleIn(a, NONE), NibbleIn(b, NONE));
  }

  /** A byte enters the register as its value times x^16. */
  lemma StepAddsByte(crc: Word, hi: Nibble, lo: Nibble)
    ensures Step(crc, ByteWord(hi, lo)) == Xor(Step(crc, ZERO), Step(Step(ByteWord(hi, lo), ZERO), ZERO))
  {
    hide Step;
    var top := Word(hi, lo, NONE, NONE);
    assert Step(ByteWord(hi, lo), ZERO) == top by { StepForm(ByteWord(hi, lo), NONE, NONE); }
    ByteInTop(crc, hi, lo);
    hide ByteIn, Xor;
    StepForm(crc, hi, lo);
    StepForm(Xor(crc, top), NONE, NONE);
    StepLinear(crc, top);
  }

  lemma ByteInTop(crc: Word, hi: Nibble, lo: Nibble)
    ensures ByteIn(crc, hi, lo) == ByteIn(Xor(crc, Word(hi, lo, NONE, NONE)), NONE, NONE)
  {
  }

  /** Sixteen ones brought down give the preset. */
  lemma SixteenOnes()
    ensures ShiftNibbleIn(ShiftNibbleIn(ShiftNibbleIn(ShiftNibbleIn(ZERO, ALL), ALL), ALL), ALL) == ONES
  {
    FourShifts(ZERO, ALL);
    FourShifts(NibbleIn(ZERO, ALL), ALL);
    FourShifts(NibbleIn(NibbleIn(ZERO, ALL), ALL), ALL);
    FourShifts(NibbleIn(NibbleIn(NibbleIn(ZERO, ALL), ALL), ALL), ALL);
  }

  /** For a fixed byte the step is a bijection on registers: a difference once there stays. */
  lemma StepInjective(c: Word, d: Word, hi: Nibble, lo: Nibble)
    requires Step(c, ByteWord(hi, lo)) == Step(d, ByteWord(hi, lo))
    ensures c == d
  {
    hide Step;
    StepForm(c, hi, lo);
    StepForm(d, hi, lo);
  }

  lemma XorCancels(x: Nibble, y: Nibble, z: Nibble)
    ensures XorNibble(x, z) == XorNibble(y, z) ==> x == y
    ensures XorNibble(z, x) == XorNibble(z, y) ==> x == y
  {
  }

  /** What equal registers after a step say about the registers and bytes before it. */
  lemma StepBack(c: Word, h: Nibble, l: Nibble, d: Word, g: Nibble, k: Nibble)
    requires Step(c, ByteWord(h, l)) == Step(d, ByteWord(g, k))
    ensures c.n0 == d.n0 && c.n1 == d.n1
    ensures XorNibble(c.n3, h) == XorNibble(d.n3, g) && XorNibble(c.n2, l) == XorNibble(d.n2, k)
  {
    hide Step;
    StepForm(c, h, l);
    StepForm(d, g, k);
    var t1, t0 := XorNibble(c.n3, h), Step(c, ByteWord(h, l)).n0;
    var u1 := XorNibble(d.n3, g);
    hide XorNibble;
    XorCancels(t1, u1, ShiftNibble(t0, false));
    XorCancels(XorNibble(c.n2, l), XorNibble(d.n2, k), t1);
    XorCancels(c.n0, d.n0, ShiftNibble(t1, t0.b3));
    var tap := Nibble(false, false, false, t1.b3);
    XorCancels(XorNibble(c.n1, t0), XorNibble(d.n1, t0), tap);
    XorCancels(c.n1, d.n1, t0);
  }

  /** Two bytes fed to one register in a row can be read off the result. */
  lemma BurstDetected(c: Word, h1: Nibble, l1: Nibble, h2: Nibble, l2: Nibble,
                      g1: Nibble, k1: Nibble, g2: Nibble, k2: Nibble)
    requires Step(Step(c, ByteWord(h1, l1)), ByteWord(h2, l2)) == Step(Step(c, ByteWord(g1, k1)), ByteWord(g2, k2))
    ensures h1 == g1 && l1 == k1 && h2 == g2 && l2 == k2
  {
    hide Step;
    var p, q := Step(c, ByteWord(h1, l1)), Step(c, ByteWord(g1, k1));
    StepBack(p, h2, l2, q, g2, k2);
    StepForm(c, h1, l1);
    StepForm(c, g1, k1);
    var t1, u1 := XorNibble(c.n3, h1), XorNibble(c.n3, g1);
    hide XorNibble;
    XorCancels(t1, u1, ShiftNibble(p.n0, false));
    XorCancels(h1, g1, c.n3);
    XorCancels(XorNibble(c.n2, l1), XorNibble(c.n2, k1), t1);
    XorCancels(l1, k1, c.n2);
    XorCancels(h2, g2, p.n3);
    XorCancels(l2, k2, p.n2);
  }
}

/** The block checksum, and what it means. */
module Crc16 {
  import opened Bytes
  import opened Words
  import opened CrcRegister
  import opened Horner

  function HighNibble(b: byte): Nibble { NibbleOf(b / 0x10) }

  function LowNibble(b: byte): Nibble { NibbleOf(b % 0x10) }

  /** A byte widened to 16 bits. */
  function Widen(b: byte): Word { ByteWord(HighNibble(b), LowNibble(b)) }

  /** The register after the whole block, starting from `crc`. */
  function Block(data: seq<byte>, crc: Word): Word
    decreases |data|, 0
  {
    if data == [] then crc else BlockAnd(data[..|data| - 1], data[|data| - 1], crc)
  }

  /** The register after a block and one more byte. */
  function BlockAnd(data: seq<byte>, b: byte, crc: Word): Word
    decreases |data|, 1
  {
    Step(Block(data, crc), Widen(b))
  }

  /** The checksum of a block: the register is preset to all ones. */
  function Checksum(data: seq<byte>): u16 { Value(Block(data, ONES)) }

  lemma BlockSnoc(data: seq<byte>, b: byte, crc: Word)
    ensures Block(data + [b], crc) == Step(Block(data, crc), Widen(b))
  {
    assert (data + [b])[..|data|] == data;
  }

  /** `crc16_compute`: `previous` is the result of the last call, or absent for the preset. */
  method Compute(data: seq<byte>, size: nat, hasPrevious: bool, previous: u16) returns (crc: u16)
    requires size <= |data|
    ensures crc == Value(Block(data[..size], if hasPrevious then WordOf(previous) else ONES))
  {
    var w := if hasPrevious then WordOf(previous) else ONES;
    ghost var first := w;
    for i := 0 to size
      invariant w == Block(data[..i], first)
    {
      assert data[..i + 1] == data[..i] + [data[i]];
      BlockSnoc(data[..i], data[i], first);
      hide XorNibble, ShiftNibble, OrNibble;
      w := Or(ShiftRight8(w), ShiftLeft8(w));
      w := Xor(w, Widen(data[i]));
      w := Xor(w, ShiftRight4(LowByte(w)));
      w := Xor(w, ShiftLeft4(ShiftLeft8(w)));
      w := Xor(w, ShiftLeft1(ShiftLeft4(LowByte(w))));
    }
    crc := Value(w);
  }

  /** The checksum of a whole block: the first and only call. */
  method ComputeAll(data: seq<byte>) returns (crc: u16)
    ensures crc == Checksum(data)
  {
    hide Block;
    crc := Compute(data, |data|, false, 0);
    assert data[..|data|] == data;
  }

  /** Feeding two consecutive blocks is feeding their concatenation. */
  lemma {:induction false} BlocksCompose(a: seq<byte>, b: seq<byte>, crc: Word)
    ensures Block(a + b, crc) == Block(b, Block(a, crc))
    decreases |b|
  {
    hide Step;
    if b == [] {
      assert a + b == a;
    } else {
      var n := |b| - 1;
      assert a + b == (a + b[..n]) + [b[n]];
      BlockSnoc(a + b[..n], b[n], crc);
      BlocksCompose(a, b[..n], crc);
    }
  }

  // ---- the checksum as a polynomial remainder ----

  /** Long division by x^16 + x^12 + x^5 + 1, one coefficient (highest power first) at a time. */
  function Divide(r: Word, p: seq<Word>): Word { Eval(TimesX, Xor, r, p) }

  function Remainder(p: seq<Word>): Word { Divide(ZERO, p) }

  function Constant(bit: bool, n: nat): (p: seq<Word>)
    ensures |p| == n && forall i :: 0 <= i < n ==> p[i] == Coefficient(bit)
  {
    seq(n, i => Coefficient(bit))
  }

  /** The coefficients of the message, most significant bit of the first byte first. */
  function Bits(data: seq<byte>): (p: seq<Word>)
    ensures |p| == 8 * |data|
    decreases |data|
  {
    if data == [] then []
    else var b := data[|data| - 1];
      Bits(data[..|data| - 1]) + BitsOfNibble(HighNibble(b)) + BitsOfNibble(LowNibble(b))
  }

  /** The message followed by sixteen zeros, its first sixteen coefficients inverted by the preset. */
  function Dividend(data: seq<byte>): (p: seq<Word>)
    ensures |p| == 8 * |data| + 16
  {
    Sum(Xor, Bits(data) + Constant(false, 16), Constant(true, 16) + Constant(false, 8 * |data|))
  }

  lemma DivisionDistributes()
    ensures Distributes(TimesX, Xor)
  {
    forall a, b { TimesXLinear(a, b); }
    forall a, b, c, d { XorShuffle(a, b, c, d); }
  }

  lemma DivideNibble(r: Word, n: Nibble)
    ensures Divide(r, BitsOfNibble(n)) == ShiftNibbleIn(r, n)
  {
    hide TimesX, Xor;
    var p := BitsOfNibble(n);
    forall k | 0 <= k < 4 ensures Divide(r, p[..k + 1]) == Shift(Divide(r, p[..k]), p[k]) {
      assert p[..k + 1][..k] == p[..k];
    }
    assert p[..4] == p && p[..0] == [];
  }

  /** Eight more coefficients are one step of the register. */
  lemma DivideByte(r: Word, hi: Nibble, lo: Nibble)
    ensures Divide(r, BitsOfNibble(hi) + BitsOfNibble(lo)) == Xor(Step(r, ZERO), ByteWord(hi, lo))
  {
    hide Step, ShiftNibbleIn, Xor;
    EvalConcat(TimesX, Xor, r, BitsOfNibble(hi), BitsOfNibble(lo));
    DivideNibble(r, hi);
    DivideNibble(ShiftNibbleIn(r, hi), lo);
    EightShifts(r, hi, lo);
  }

  lemma DivideEightZeros(r: Word)
    ensures Divide(r, Constant(false, 8)) == Step(r, ZERO)
  {
    hide Step;
    assert Constant(false, 8) == BitsOfNibble(NONE) + BitsOfNibble(NONE);
    DivideByte(r, NONE, NONE);
    XorZero(Step(r, ZERO));
  }

  lemma DivideMoreZeros(r: Word, n: nat)
    ensures Divide(r, Constant(false, n + 8)) == Step(Divide(r, Constant(false, n)), ZERO)
  {
    hide Step;
    assert Constant(false, n + 8) == Constant(false, n) + Constant(false, 8);
    EvalConcat(TimesX, Xor, r, Constant(false, n), Constant(false, 8));
    DivideEightZeros(Divide(r, Constant(false, n)));
  }

  lemma DivideSixteenZeros(r: Word)
    ensures Divide(r, Constant(false, 16)) == Step(Step(r, ZERO), ZERO)
  {
    hide Step;
    DivideMoreZeros(r, 8);
    DivideEightZeros(r);
  }

  /** One more byte of message: both parts of the register's value move on together. */
  lemma StepOfParts(p: Word, q: Word, hi: Nibble, lo: Nibble)
    ensures Step(Xor(p, Step(Step(q, ZERO), ZERO)), ByteWord(hi, lo))
         == Xor(Step(p, ZERO), Step(Step(Xor(Step(q, ZERO), ByteWord(hi, lo)), ZERO), ZERO))
  {
    hide Step, Xor;
    var w := ByteWord(hi, lo);
    var q2 := Step(Step(q, ZERO), ZERO);
    StepAddsByte(Xor(p, q2), hi, lo);
    StepLinear(p, q2);
    StepLinear(Step(q, ZERO), w);
    StepLinear(Step(Step(q, ZERO), ZERO), Step(w, ZERO));
    XorAssociative(Step(p, ZERO), Step(q2, ZERO), Step(Step(w, ZERO), ZERO));
  }

  lemma RemainderSnoc(data: seq<byte>, b: byte)
    ensures Remainder(Bits(data + [b])) == Xor(Step(Remainder(Bits(data)), ZERO), Widen(b))
  {
    hide Step, Xor, HighNibble, LowNibble, BitsOfNibble;
    var hi, lo := HighNibble(b), LowNibble(b);
    assert (data + [b])[..|data|] == data;
    assert Bits(data + [b]) == Bits(data) + (BitsOfNibble(hi) + BitsOfNibble(lo));
    EvalConcat(TimesX, Xor, ZERO, Bits(data), BitsOfNibble(hi) + BitsOfNibble(lo));
    DivideByte(Remainder(Bits(data)), hi, lo);
  }

  /** The register is a sum of two remainders: of the start value and of the message times x^16. */
  lemma {:induction false} BlockIsDivision(data: seq<byte>, crc: Word)
    ensures Block(data, crc) == Xor(Divide(crc, Constant(false, 8 * |data|)),
                                    Divide(Remainder(Bits(data)), Constant(false, 16)))
    decreases |data|
  {
    hide Step, Xor;
    DivideSixteenZeros(Remainder(Bits(data)));
    if data == [] {
      assert Constant(false, 0) == [];
      assert Step(Step(ZERO, ZERO), ZERO) == ZERO by { DivideStaysZero(); }
      XorZero(crc);
    } else {
      var n := |data| - 1;
      var d, b := data[..n], data[n];
      assert data == d + [b];
      BlockIsDivision(d, crc);
      DivideSixteenZeros(Remainder(Bits(d)));
      DivideMoreZeros(crc, 8 * n);
      RemainderSnoc(d, b);
      hide Divide, Bits, Constant;
      StepOfParts(Divide(crc, Constant(false, 8 * n)), Remainder(Bits(d)), HighNibble(b), LowNibble(b));
    }
  }

  lemma DivideStaysZero()
    ensures Step(ZERO, ZERO) == ZERO
  {
    StepForm(ZERO, NONE, NONE);
  }

  lemma DivideSixteenOnes()
    ensures Remainder(Constant(true, 16)) == ONES
  {
    hide ShiftNibbleIn;
    var a := BitsOfNibble(ALL);
    assert Constant(true, 16) == ((a + a) + a) + a;
    EvalConcat(TimesX, Xor, ZERO, (a + a) + a, a);
    EvalConcat(TimesX, Xor, ZERO, a + a, a);
    EvalConcat(TimesX, Xor, ZERO, a, a);
    DivideNibble(ZERO, ALL);
    DivideNibble(ShiftNibbleIn(ZERO, ALL), ALL);
    DivideNibble(ShiftNibbleIn(ShiftNibbleIn(ZERO, ALL), ALL), ALL);
    DivideNibble(ShiftNibbleIn(ShiftNibbleIn(ShiftNibbleIn(ZERO, ALL), ALL), ALL), ALL);
    SixteenOnes();
  }

  /** The checksum is the remainder of the message polynomial, times x^16 and with the preset added in. */
  lemma ChecksumIsRemainder(data: seq<byte>)
    ensures Checksum(data) == Value(Remainder(Dividend(data)))
  {
    hide Step, Xor, Value;
    var zeros, message := Constant(false, 8 * |data|), Bits(data) + Constant(false, 16);
    var preset := Constant(true, 16) + zeros;
    BlockIsDivision(data, ONES);
    EvalConcat(TimesX, Xor, ZERO, Bits(data), Constant(false, 16));
    EvalConcat(TimesX, Xor, ZERO, Constant(true, 16), zeros);
    DivideSixteenOnes();
    DivisionDistributes();
    EvalLinear(TimesX, Xor, ZERO, ZERO, message, preset);
    XorZero(ZERO);
    XorCommutes(Divide(ONES, zeros), Divide(ZERO, message));
  }

  lemma XorCommutes(a: Word, b: Word)
    ensures Xor(a, b) == Xor(b, a)
  {
  }

  // ---- blocks of one length ----

  lemma XorCancelsWord(x: Word, a: Word, b: Word)
    requires Xor(x, a) == Xor(x, b)
    ensures a == b
  {
    XorAssociative(x, x, a);
    XorAssociative(x, x, b);
    XorItself(x);
    XorZero(a);
    XorZero(b);
    hide Xor;
  }

  lemma XorItself(x: Word)
    ensures Xor(x, x) == ZERO
  {
  }

  /** Whether two blocks of one length lead to the same register does not depend on where it started. */
  lemma StartDoesNotMatter(a: seq<byte>, b: seq<byte>, c: Word, d: Word)
    requires |a| == |b|
    ensures Block(a, c) == Block(b, c) <==> Block(a, d) == Block(b, d)
  {
    hide Block, Divide, Xor;
    BlockIsDivision(a, c);
    BlockIsDivision(b, c);
    BlockIsDivision(a, d);
    BlockIsDivision(b, d);
    var x, y := Divide(Remainder(Bits(a)), Constant(false, 16)), Divide(Remainder(Bits(b)), Constant(false, 16));
    var atC, atD := Divide(c, Constant(false, 8 * |a|)), Divide(d, Constant(false, 8 * |a|));
    if Xor(atC, x) == Xor(atC, y) {
      XorCancelsWord(atC, x, y);
    }
    if Xor(atD, x) == Xor(atD, y) {
      XorCancelsWord(atD, x, y);
    }
  }

  /** The same about checksums: what precedes the two blocks makes no difference. */
  lemma PrefixDoesNotMatter(before: seq<byte>, a: seq<byte>, b: seq<byte>)
    requires |a| == |b|
    ensures Checksum(before + a) == Checksum(before + b) <==> Checksum(a) == Checksum(b)
  {
    hide Block, Value, WordOf;
    BlocksCompose(before, a, ONES);
    BlocksCompose(before, b, ONES);
    StartDoesNotMatter(a, b, ONES, Block(before, ONES));
    WordOfValue(Block(a, ONES));
    WordOfValue(Block(b, ONES));
    WordOfValue(Block(before + a, ONES));
    WordOfValue(Block(before + b, ONES));
  }

  // ---- error detection ----

  lemma {:induction false} BlockInjective(data: seq<byte>, c: Word, d: Word)
    requires Block(data, c) == Block(data, d)
    ensures c == d
    decreases |data|
  {
    hide Step;
    if data != [] {
      var n := |data| - 1;
      StepInjective(Block(data[..n], c), Block(data[..n], d), HighNibble(data[n]), LowNibble(data[n]));
      BlockInjective(data[..n], c, d);
    }
  }

  lemma NibblesOfByte(a: byte, b: byte)
    requires HighNibble(a) == HighNibble(b) && LowNibble(a) == LowNibble(b)
    ensures a == b
  {
    ValueOfNibble(a / 0x10);
    ValueOfNibble(a % 0x10);
    ValueOfNibble(b / 0x10);
    ValueOfNibble(b % 0x10);
  }

  lemma BlockOfTwo(before: seq<byte>, x: byte, y: byte, after: seq<byte>, crc: Word)
    ensures Block(before + [x, y] + after, crc) == Block(after, Step(Step(Block(before, crc), Widen(x)), Widen(y)))
  {
    hide Step;
    BlocksCompose(before + [x, y], after, crc);
    assert before + [x, y] == (before + [x]) + [y];
    BlockSnoc(before + [x], y, crc);
    BlockSnoc(before, x, crc);
  }

  /** Any change confined to two adjacent bytes changes the checksum. */
  lemma AdjacentErrorsDetected(before: seq<byte>, x: byte, y: byte, x': byte, y': byte, after: seq<byte>)
    requires (x, y) != (x', y')
    ensures Checksum(before + [x, y] + after) != Checksum(before + [x', y'] + after)
  {
    hide Step, Value, WordOf;
    var c := Block(before, ONES);
    BlockOfTwo(before, x, y, after, ONES);
    BlockOfTwo(before, x', y', after, ONES);
    var p, q := Step(Step(c, Widen(x)), Widen(y)), Step(Step(c, Widen(x')), Widen(y'));
    WordOfValue(Block(after, p));
    WordOfValue(Block(after, q));
    if Checksum(before + [x, y] + after) == Checksum(before + [x', y'] + after) {
      BlockInjective(after, p, q);
      BurstDetected(c, HighNibble(x), LowNibble(x), HighNibble(y), LowNibble(y),
                    HighNibble(x'), LowNibble(x'), HighNibble(y'), LowNibble(y'));
      NibblesOfByte(x, x');
      NibblesOfByte(y, y');
    }
  }

  /** Payloads of one length that differ at most at `k` and `k + 1`, and do differ, have different checksums. */
  lemma BurstChangesChecksum(a: seq<byte>, b: seq<byte>, k: nat)
    requires |a| == |b| && a != b
    requires forall i :: 0 <= i < |a| && i != k && i != k + 1 ==> a[i] == b[i]
    ensures Checksum(a) != Checksum(b)
  {
    hide Checksum;
    if k + 1 < |a| {
      assert a == a[..k] + [a[k], a[k + 1]] + a[k + 2..] && b == a[..k] + [b[k], b[k + 1]] + a[k + 2..];
      AdjacentErrorsDetected(a[..k], a[k], a[k + 1], b[k], b[k + 1], a[k + 2..]);
    } else if |a| > 1 {
      BurstChangesChecksum(a, b, |a| - 2);
    } else {
      assert a == [a[0]] && b == [b[0]];
      OneByteChanges(a[0], b[0]);
    }
  }

  lemma OneByteChanges(x: byte, y: byte)
    requires x != y
    ensures Checksum([x]) != Checksum([y])
  {
    hide Step, Value, WordOf;
    AdjacentErrorsDetected([], x, 0, y, 0, []);
    assert [] + [x, 0] + [] == [x] + [0] && [] + [y, 0] + [] == [y] + [0];
    BlockSnoc([x], 0, ONES);
    BlockSnoc([y], 0, ONES);
    WordOfValue(Block([x], ONES));
    WordOfValue(Block([y], ONES));
  }
}
