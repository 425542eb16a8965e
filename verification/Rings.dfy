/** Two positions that go round in a buffer, and what lies between them. */
module Rings {

  function After(p: nat, size: nat): nat { if p + 1 == size then 0 else p + 1 }

  lemma AfterIsModulo(p: nat, size: nat)
    requires p < size
    ensures (p + 1) % size == After(p, size)
  {
  }

  /** How many positions lie between the two, and which one is `i` behind the first. */
  function Distance(r: nat, w: nat, size: nat): int { if w >= r then w - r else size - r + w }

  function Place(r: nat, i: nat, size: nat): int { if r + i < size then r + i else r + i - size }

  /** What lies between the two positions of a ring. */
  function Ring<T>(s: seq<T>, r: nat, w: nat): (c: seq<T>)
    requires r < |s| && w < |s|
    ensures |c| == Distance(r, w, |s|) < |s|
    ensures forall i :: 0 <= i < |c| ==> c[i] == s[Place(r, i, |s|)]
  {
    seq(Distance(r, w, |s|), i requires 0 <= i < Distance(r, w, |s|) => s[Place(r, i, |s|)])
  }

  lemma RingIsEmpty<T>(s: seq<T>, r: nat, w: nat)
    requires r < |s| && w < |s|
    ensures Ring(s, r, w) == [] <==> r == w
    ensures |Ring(s, r, w)| == |s| - 1 <==> After(w, |s|) == r
  {
  }

  lemma RingGet<T>(s: seq<T>, r: nat, w: nat)
    requires r < |s| && w < |s| && r != w
    ensures Ring(s, r, w) == [s[r]] + Ring(s, After(r, |s|), w)
  {
  }

  lemma RingPut<T>(s: seq<T>, r: nat, w: nat, b: T)
    requires r < |s| && w < |s| && After(w, |s|) != r
    ensures Ring(s[w := b], r, After(w, |s|)) == Ring(s, r, w) + [b]
  {
    var c, c' := Ring(s, r, w), Ring(s[w := b], r, After(w, |s|));
    assert |c'| == |c| + 1 && c'[|c|] == b;
    forall i | 0 <= i < |c| ensures c'[i] == c[i] {
      assert Place(r, i, |s|) != w;
    }
  }

}
