/** 16-bit words as vectors of bits, with the shifts and exclusive ors the firmware applies to them. */
module Words {
  import opened Bytes

  datatype Nibble = Nibble(b3: bool, b2: bool, b1: bool, b0: bool)

  /** A word as four nibbles, most significant first. */
  datatype Word = Word(n3: Nibble, n2: Nibble, n1: Nibble, n0: Nibble)

  const NONE := Nibble(false, false, false, false)
  const ALL := Nibble(true, true, true, true)
  const ZERO := Word(NONE, NONE, NONE, NONE)
  const ONES := Word(ALL, ALL, ALL, ALL)

  function XorNibble(x: Nibble, y: Nibble): Nibble {
    Nibble(x.b3 != y.b3, x.b2 != y.b2, x.b1 != y.b1, x.b0 != y.b0)
  }

  function Xor(x: Word, y: Word): Word {
    Word(XorNibble(x.n3, y.n3), XorNibble(x.n2, y.n2), XorNibble(x.n1, y.n1), XorNibble(x.n0, y.n0))
  }

  function LowByte(w: Word): Word { Word(NONE, NONE, w.n1, w.n0) }

  function ShiftRight8(w: Word): Word { Word(NONE, NONE, w.n3, w.n2) }

  function ShiftLeft8(w: Word): Word { Word(w.n1, w.n0, NONE, NONE) }

  function ShiftRight4(w: Word): Word { Word(NONE, w.n3, w.n2, w.n1) }

  function ShiftLeft4(w: Word): Word { Word(w.n2, w.n1, w.n0, NONE) }

  function ShiftNibble(n: Nibble, carry: bool): Nibble { Nibble(n.b2, n.b1, n.b0, carry) }

  function ShiftLeft1(w: Word): Word {
    Word(ShiftNibble(w.n3, w.n2.b3), ShiftNibble(w.n2, w.n1.b3), ShiftNibble(w.n1, w.n0.b3), ShiftNibble(w.n0, false))
  }

  // ---- words as numbers ----

  function NibbleValue(n: Nibble): (v: nat)
    ensures v < 16
  {
    (if n.b3 then 8 else 0) + (if n.b2 then 4 else 0) + (if n.b1 then 2 else 0) + (if n.b0 then 1 else 0)
  }

  function NibbleOf(v: nat): Nibble
    requires v < 16
  {
    Nibble(v >= 8, v % 8 >= 4, v % 4 >= 2, v % 2 == 1)
  }

  function Value(w: Word): u16 {
    NibbleValue(w.n3) * 0x1000 + NibbleValue(w.n2) * 0x100 + NibbleValue(w.n1) * 0x10 + NibbleValue(w.n0)
  }

  function WordOf(v: u16): Word {
    Word(NibbleOf(v / 0x1000), NibbleOf(v / 0x100 % 0x10), NibbleOf(v / 0x10 % 0x10), NibbleOf(v % 0x10))
  }

  lemma NibbleOfValue(n: Nibble)
    ensures NibbleOf(NibbleValue(n)) == n
  {
  }

  lemma ValueOfNibble(v: nat)
    requires v < 16
    ensures NibbleValue(NibbleOf(v)) == v
  {
  }

  lemma DigitsUnique(a: nat, b: nat, c: nat, d: nat)
    requires a < 16 && b < 16 && c < 16 && d < 16
    ensures var v := a * 0x1000 + b * 0x100 + c * 0x10 + d;
            v / 0x1000 == a && v / 0x100 % 0x10 == b && v / 0x10 % 0x10 == c && v % 0x10 == d
  {
    var v := a * 0x1000 + b * 0x100 + c * 0x10 + d;
    assert v / 0x10 == a * 0x100 + b * 0x10 + c;
    assert v / 0x100 == a * 0x10 + b;
  }

  lemma WordOfValue(w: Word)
    ensures WordOf(Value(w)) == w
  {
    DigitsUnique(NibbleValue(w.n3), NibbleValue(w.n2), NibbleValue(w.n1), NibbleValue(w.n0));
    NibbleOfValue(w.n3);
    NibbleOfValue(w.n2);
    NibbleOfValue(w.n1);
    NibbleOfValue(w.n0);
  }

  lemma ValueOfWord(v: u16)
    ensures Value(WordOf(v)) == v
  {
    ValueOfNibble(v / 0x1000);
    ValueOfNibble(v / 0x100 % 0x10);
    ValueOfNibble(v / 0x10 % 0x10);
    ValueOfNibble(v % 0x10);
    var q1, q2 := v / 0x10, v / 0x100;
    assert v == 0x10 * q1 + v % 0x10;
    assert q2 == q1 / 0x10 && q1 == 0x10 * q2 + q1 % 0x10;
    assert v / 0x1000 == q2 / 0x10 && q2 == 0x10 * (q2 / 0x10) + q2 % 0x10;
  }

  // ---- exclusive or of numbers ----

  /** The exclusive or, bit by bit from the lowest one on. */
  function XorBits(a: nat, b: nat): nat
    decreases a + b
  {
    if a == 0 && b == 0 then 0 else 2 * XorBits(a / 2, b / 2) + (a % 2 + b % 2) % 2
  }

  /** The exclusive or of two 16-bit numbers. */
  function Xor16(a: u16, b: u16): u16 {
    SixteenBits();
    XorBelow(a, b, 16);
    XorBits(a, b)
  }

  function Pow2(n: nat): nat { if n == 0 then 1 else 2 * Pow2(n - 1) }

  lemma SixteenBits()
    ensures Pow2(16) == 0x1_0000
  {
    assert Pow2(4) == 4 * Pow2(2) && Pow2(8) == 4 * Pow2(6) && Pow2(6) == 4 * Pow2(4);
    assert Pow2(12) == 4 * Pow2(10) && Pow2(10) == 4 * Pow2(8);
    assert Pow2(16) == 4 * Pow2(14) && Pow2(14) == 4 * Pow2(12);
  }

  /** The exclusive or needs no more bits than its operands. */
  lemma {:induction false} XorBelow(a: nat, b: nat, n: nat)
    requires a < Pow2(n) && b < Pow2(n)
    ensures XorBits(a, b) < Pow2(n)
  {
    if n > 0 {
      XorBelow(a / 2, b / 2, n - 1);
    }
  }

  lemma XorBitsStep(a: nat, b: nat)
    ensures XorBits(a, b) == 2 * XorBits(a / 2, b / 2) + (a % 2 + b % 2) % 2
  {
  }

  lemma Parities(q: nat, x: nat, y: nat)
    requires x < 2 && y < 2
    ensures (2 * q + (x + y) % 2) / 2 == q && (x + (2 * q + (x + y) % 2) % 2) % 2 == y && (y + (2 * q + (x + y) % 2) % 2) % 2 == x
  {
  }

  /** Either operand is recovered from the other one and the exclusive or. */
  lemma {:induction false} XorBitsUndo(a: nat, b: nat)
    ensures XorBits(a, XorBits(a, b)) == b && XorBits(b, XorBits(a, b)) == a
    decreases a + b
  {
    if a != 0 || b != 0 {
      XorBitsUndo(a / 2, b / 2);
      var r := XorBits(a, b);
      XorBitsStep(a, b);
      XorBitsStep(a, r);
      XorBitsStep(b, r);
      hide XorBits;
      Parities(XorBits(a / 2, b / 2), a % 2, b % 2);
    }
  }

  lemma {:induction false} XorBitsCommutes(a: nat, b: nat)
    ensures XorBits(a, b) == XorBits(b, a)
    decreases a + b
  {
    if a != 0 || b != 0 {
      XorBitsCommutes(a / 2, b / 2);
    }
  }

  lemma Xor16Undo(a: u16, b: u16)
    ensures Xor16(a, Xor16(a, b)) == b
    ensures Xor16(b, Xor16(a, b)) == a
  {
    XorBitsUndo(a, b);
  }
}
