/** Where the fields of a message stand in its bytes: the encodings of badge_protocol.py, field by field. */
module MessageBytes {
  import opened Bytes
  import opened Codec
  import opened Messages

  // ---- numbers in bytes ----

  /** Negative numbers in two's complement. */
  predicate I8At(b: seq<byte>, i: nat, n: int) {
    i < |b| && n == b[i] as int - if b[i] < 0x80 then 0 else 0x100
  }

  predicate I16At(b: seq<byte>, i: nat, n: int) {
    && i + 2 <= |b|
    && n == (b[i] as int) * 0x100 + b[i + 1] as int - if b[i] < 0x80 then 0 else 0x1_0000
  }

  predicate F32At(b: seq<byte>, i: nat, raw: seq<byte>) { i + 4 <= |b| && |raw| == 4 && b[i..i + 4] == raw }

  // ---- what stands where ----

  /** The bytes from `i` up to `j` are the encoding of `v`. */
  predicate Stands(s: Schema, v: Value, b: seq<byte>, i: nat, j: nat) {
    Encodable(s, v) && i <= j <= |b| && b[i..j] == Encode(s, v)
  }

  lemma WholeStands(s: Schema, v: Value, b: seq<byte>)
    ensures Stands(s, v, b, 0, |b|) <==> Encodable(s, v) && b == Encode(s, v)
  {
    assert b[0..|b|] == b;
    hide Encodable, Encode;
  }

  predicate Sized(s: Schema, v: Value, w: int) { Encodable(s, v) ==> |Encode(s, v)| == w }

  lemma Sizes()
    ensures forall n {:trigger Sized(U8, Num(n), 1)} :: Sized(U8, Num(n), 1)
    ensures forall n {:trigger Sized(I8, Num(n), 1)} :: Sized(I8, Num(n), 1)
    ensures forall n {:trigger Sized(U16, Num(n), 2)} :: Sized(U16, Num(n), 2)
    ensures forall n {:trigger Sized(I16, Num(n), 2)} :: Sized(I16, Num(n), 2)
    ensures forall n {:trigger Sized(U32, Num(n), 4)} :: Sized(U32, Num(n), 4)
    ensures forall raw {:trigger Sized(F32, Raw(raw), 4)} :: Sized(F32, Raw(raw), 4)
  {
  }

  lemma U8Stands(b: seq<byte>, i: nat, j: nat, n: int)
    ensures Stands(U8, Num(n), b, i, j) <==> j == i + 1 && U8At(b, i, n)
  {
    if j == i + 1 <= |b| {
      assert b[i..j] == [b[i]];
    }
  }

  lemma I8Stands(b: seq<byte>, i: nat, j: nat, n: int)
    ensures Stands(I8, Num(n), b, i, j) <==> j == i + 1 && I8At(b, i, n)
  {
    if j == i + 1 <= |b| {
      assert b[i..j] == [b[i]];
      PackUnpack(I8, b[i..j]);
      if InRange(I8, n) {
        UnpackPack(I8, n);
      }
    }
  }

  lemma U16Stands(b: seq<byte>, i: nat, j: nat, n: int)
    ensures Stands(U16, Num(n), b, i, j) <==> j == i + 2 && U16At(b, i, n)
  {
    if j == i + 2 <= |b| {
      PackUnpack(U16, b[i..j]);
      if InRange(U16, n) {
        UnpackPack(U16, n);
      }
      hide Pack;
    }
  }

  lemma I16Stands(b: seq<byte>, i: nat, j: nat, n: int)
    ensures Stands(I16, Num(n), b, i, j) <==> j == i + 2 && I16At(b, i, n)
  {
    if j == i + 2 <= |b| {
      PackUnpack(I16, b[i..j]);
      if InRange(I16, n) {
        UnpackPack(I16, n);
      }
      hide Pack;
    }
  }

  lemma U32Stands(b: seq<byte>, i: nat, j: nat, n: int)
    ensures Stands(U32, Num(n), b, i, j) <==> j == i + 4 && U32At(b, i, n)
  {
    if j == i + 4 <= |b| {
      PackUnpack(U32, b[i..j]);
      if InRange(U32, n) {
        UnpackPack(U32, n);
      }
      hide Pack;
    }
  }

  lemma F32Stands(b: seq<byte>, i: nat, j: nat, raw: seq<byte>)
    ensures Stands(F32, Raw(raw), b, i, j) <==> j == i + 4 && F32At(b, i, raw)
  {
  }

  /** All of these. */
  lemma Leaves(b: seq<byte>)
    ensures forall i: nat, j: nat, n {:trigger Stands(U8, Num(n), b, i, j)} ::
              Stands(U8, Num(n), b, i, j) <==> j == i + 1 && U8At(b, i, n)
    ensures forall i: nat, j: nat, n {:trigger Stands(I8, Num(n), b, i, j)} ::
              Stands(I8, Num(n), b, i, j) <==> j == i + 1 && I8At(b, i, n)
    ensures forall i: nat, j: nat, n {:trigger Stands(U16, Num(n), b, i, j)} ::
              Stands(U16, Num(n), b, i, j) <==> j == i + 2 && U16At(b, i, n)
    ensures forall i: nat, j: nat, n {:trigger Stands(I16, Num(n), b, i, j)} ::
              Stands(I16, Num(n), b, i, j) <==> j == i + 2 && I16At(b, i, n)
    ensures forall i: nat, j: nat, n {:trigger Stands(U32, Num(n), b, i, j)} ::
              Stands(U32, Num(n), b, i, j) <==> j == i + 4 && U32At(b, i, n)
    ensures forall i: nat, j: nat, raw {:trigger Stands(F32, Raw(raw), b, i, j)} ::
              Stands(F32, Raw(raw), b, i, j) <==> j == i + 4 && F32At(b, i, raw)
  {
    hide *;
    forall i: nat, j: nat, n ensures Stands(U8, Num(n), b, i, j) <==> j == i + 1 && U8At(b, i, n) {
      U8Stands(b, i, j, n);
    }
    forall i: nat, j: nat, n ensures Stands(I8, Num(n), b, i, j) <==> j == i + 1 && I8At(b, i, n) {
      I8Stands(b, i, j, n);
    }
    forall i: nat, j: nat, n ensures Stands(U16, Num(n), b, i, j) <==> j == i + 2 && U16At(b, i, n) {
      U16Stands(b, i, j, n);
    }
    forall i: nat, j: nat, n ensures Stands(I16, Num(n), b, i, j) <==> j == i + 2 && I16At(b, i, n) {
      I16Stands(b, i, j, n);
    }
    forall i: nat, j: nat, n ensures Stands(U32, Num(n), b, i, j) <==> j == i + 4 && U32At(b, i, n) {
      U32Stands(b, i, j, n);
    }
    forall i: nat, j: nat, raw ensures Stands(F32, Raw(raw), b, i, j) <==> j == i + 4 && F32At(b, i, raw) {
      F32Stands(b, i, j, raw);
    }
  }

  // ---- fields, lists and alternatives ----

  /** The value of fields one behind the other. */
  function Fields(vs: seq<Value>): Value {
    if vs == [] then Unit else Pair(vs[0], Fields(vs[1..]))
  }

  lemma ThenEncodes(s: Schema, t: Schema, v: Value, w: Value)
    ensures Encodable(Then(s, t), Pair(v, w)) <==> Encodable(s, v) && Encodable(t, w)
    ensures Encodable(s, v) && Encodable(t, w) ==> Encode(Then(s, t), Pair(v, w)) == Encode(s, v) + Encode(t, w)
  {
  }

  lemma InTwo(b: seq<byte>, i: nat, k: nat, j: nat, x: seq<byte>, y: seq<byte>)
    requires i <= k && |x| == k - i
    ensures i <= j <= |b| && b[i..j] == x + y <==> k <= j <= |b| && b[i..k] == x && b[k..j] == y
  {
    if k <= j <= |b| {
      assert b[i..j] == b[i..k] + b[k..j];
      assert b[i..j][..k - i] == b[i..k] && b[i..j][k - i..] == b[k..j];
      assert (x + y)[..|x|] == x && (x + y)[|x|..] == y;
    }
  }

  lemma ThenStands(s: Schema, t: Schema, v: Value, w: Value, b: seq<byte>, i: nat, k: nat, j: nat)
    requires k >= i && Sized(s, v, k - i)
    ensures Stands(Then(s, t), Pair(v, w), b, i, j) <==> Stands(s, v, b, i, k) && Stands(t, w, b, k, j)
  {
    hide Encodable, Encode;
    ThenEncodes(s, t, v, w);
    if Encodable(s, v) && Encodable(t, w) {
      InTwo(b, i, k, j, Encode(s, v), Encode(t, w));
    }
  }

  /** The fields stand one behind the other, each from its place to the next. */
  lemma {:induction false} StructStands(fs: seq<Schema>, vs: seq<Value>, b: seq<byte>, at: seq<nat>, j: nat)
    requires |vs| == |fs| && |at| == |fs| + 1
    requires forall k :: 0 <= k < |fs| ==> at[k] <= at[k + 1] && Sized(fs[k], vs[k], at[k + 1] - at[k])
    ensures Stands(Struct(fs), Fields(vs), b, at[0], j)
       <==> j == at[|fs|] <= |b| && forall k :: 0 <= k < |fs| ==> Stands(fs[k], vs[k], b, at[k], at[k + 1])
    decreases |fs|
  {
    if fs != [] {
      var fs', vs', at' := fs[1..], vs[1..], at[1..];
      forall k | 0 <= k < |fs'| ensures at'[k] <= at'[k + 1] && Sized(fs'[k], vs'[k], at'[k + 1] - at'[k]) {
        assert at[k + 1] <= at[k + 2] && Sized(fs[k + 1], vs[k + 1], at[k + 2] - at[k + 1]);
      }
      StructStands(fs', vs', b, at', j);
      ThenStands(fs[0], Struct(fs'), vs[0], Fields(vs'), b, at[0], at[1], j);
      hide Stands;
      if Stands(Struct(fs), Fields(vs), b, at[0], j) {
        forall k | 0 <= k < |fs| ensures Stands(fs[k], vs[k], b, at[k], at[k + 1]) {
          assert k > 0 ==> Stands(fs'[k - 1], vs'[k - 1], b, at'[k - 1], at'[k]);
        }
      }
      if forall k :: 0 <= k < |fs| ==> Stands(fs[k], vs[k], b, at[k], at[k + 1]) {
        forall k | 0 <= k < |fs'| ensures Stands(fs'[k], vs'[k], b, at'[k], at'[k + 1]) {
          assert Stands(fs[k + 1], vs[k + 1], b, at[k + 1], at[k + 2]);
        }
      }
    }
  }

  lemma {:induction false} StructSized(fs: seq<Schema>, vs: seq<Value>, at: seq<nat>)
    requires |vs| == |fs| && |at| == |fs| + 1
    requires forall k :: 0 <= k < |fs| ==> at[k] <= at[k + 1] && Sized(fs[k], vs[k], at[k + 1] - at[k])
    ensures at[0] <= at[|fs|] && Sized(Struct(fs), Fields(vs), at[|fs|] - at[0])
    decreases |fs|
  {
    if fs != [] {
      var fs', vs', at' := fs[1..], vs[1..], at[1..];
      forall k | 0 <= k < |fs'| ensures at'[k] <= at'[k + 1] && Sized(fs'[k], vs'[k], at'[k + 1] - at'[k]) {
        assert at[k + 1] <= at[k + 2] && Sized(fs[k + 1], vs[k + 1], at[k + 2] - at[k + 1]);
      }
      StructSized(fs', vs', at');
      ThenEncodes(fs[0], Struct(fs'), vs[0], Fields(vs'));
      hide Encode, Encodable;
      assert Sized(fs[0], vs[0], at[1] - at[0]);
    }
  }

  /** The place of item `k` of a list of items of `w` bytes. */
  function Place(i: nat, w: nat, k: nat): nat { i + k * w }

  /** The items stand one behind the other. */
  predicate RunStands(item: Schema, vs: seq<Value>, b: seq<byte>, i: nat, w: nat) {
    forall k :: 0 <= k < |vs| ==> Stands(item, vs[k], b, Place(i, w, k), Place(i, w, k + 1))
  }

  lemma PlaceNext(i: nat, w: nat, k: nat)
    ensures Place(i, w, k + 1) == Place(i, w, k) + w && Place(i, w, 0) == i
  {
  }

  lemma RunSnoc(item: Schema, vs: seq<Value>, b: seq<byte>, i: nat, w: nat)
    requires vs != []
    ensures var n := |vs| - 1;
      RunStands(item, vs, b, i, w)
      <==> RunStands(item, vs[..n], b, i, w) && Stands(item, vs[n], b, Place(i, w, n), Place(i, w, n + 1))
  {
    hide Stands, Place;
    var n := |vs| - 1;
    if RunStands(item, vs, b, i, w) {
      forall k | 0 <= k < n ensures Stands(item, vs[..n][k], b, Place(i, w, k), Place(i, w, k + 1)) {
        assert Stands(item, vs[k], b, Place(i, w, k), Place(i, w, k + 1));
      }
    }
    if RunStands(item, vs[..n], b, i, w) && Stands(item, vs[n], b, Place(i, w, n), Place(i, w, n + 1)) {
      forall k | 0 <= k < |vs| ensures Stands(item, vs[k], b, Place(i, w, k), Place(i, w, k + 1)) {
        assert k < n ==> vs[..n][k] == vs[k];
      }
    }
  }

  predicate AllEncodable(item: Schema, vs: seq<Value>) { forall i :: 0 <= i < |vs| ==> Encodable(item, vs[i]) }

  /** The bytes from `i` up to `j` are the encodings of the values. */
  predicate AllStand(item: Schema, vs: seq<Value>, b: seq<byte>, i: nat, j: nat) {
    AllEncodable(item, vs) && i <= j <= |b| && b[i..j] == EncodeAll(item, vs)
  }

  lemma {:induction false} AllSized(item: Schema, vs: seq<Value>, w: nat)
    requires AllEncodable(item, vs) && forall k :: 0 <= k < |vs| ==> Sized(item, vs[k], w)
    ensures |EncodeAll(item, vs)| == Place(0, w, |vs|)
    decreases |vs|
  {
    hide Encode, Encodable, Place;
    PlaceNext(0, w, if vs == [] then 0 else |vs| - 1);
    EncodeAllUnfolds(item, vs);
    if vs != [] {
      var n := |vs| - 1;
      AllSized(item, vs[..n], w);
      assert Sized(item, vs[n], w);
    }
  }

  lemma {:induction false} RunIsAll(item: Schema, vs: seq<Value>, w: nat, b: seq<byte>, i: nat, j: nat)
    requires forall k :: 0 <= k < |vs| ==> Sized(item, vs[k], w)
    ensures AllStand(item, vs, b, i, j) <==> j == Place(i, w, |vs|) <= |b| && RunStands(item, vs, b, i, w)
    decreases |vs|
  {
    hide Encode, Encodable, Place, RunStands;
    if vs == [] {
      PlaceNext(i, w, 0);
      NoneStand(item, b, i, w);
      if i == j <= |b| {
        assert b[i..j] == [];
      }
    } else {
      var n := |vs| - 1;
      PlaceNext(i, w, n);
      RunSnoc(item, vs, b, i, w);
      RunIsAll(item, vs[..n], w, b, i, Place(i, w, n));
      AllStandSnoc(item, vs, w, b, i, j);
    }
  }

  lemma NoneStand(item: Schema, b: seq<byte>, i: nat, w: nat)
    ensures RunStands(item, [], b, i, w) && EncodeAll(item, []) == []
  {
  }

  lemma PlaceFrom(i: nat, w: nat, n: nat)
    ensures Place(i, w, n) == i + Place(0, w, n)
  {
  }

  lemma AllStandSnoc(item: Schema, vs: seq<Value>, w: nat, b: seq<byte>, i: nat, j: nat)
    requires vs != [] && forall k :: 0 <= k < |vs| ==> Sized(item, vs[k], w)
    ensures var n, k := |vs| - 1, Place(i, w, |vs| - 1);
      AllStand(item, vs, b, i, j)
      <==> j == k + w && AllStand(item, vs[..n], b, i, k) && Stands(item, vs[n], b, k, j)
  {
    hide Encode, Encodable, Place, EncodeAll;
    var n, k := |vs| - 1, Place(i, w, |vs| - 1);
    PlaceFrom(i, w, n);
    assert AllEncodable(item, vs) <==> AllEncodable(item, vs[..n]) && Encodable(item, vs[n]);
    if AllEncodable(item, vs) {
      EncodeAllUnfolds(item, vs);
      AllSized(item, vs[..n], w);
      assert Sized(item, vs[n], w);
      InTwo(b, i, k, j, EncodeAll(item, vs[..n]), Encode(item, vs[n]));
    }
  }

  lemma CountedEncodes(item: Schema, vs: seq<Value>)
    ensures Encodable(Counted(item), Items(vs)) <==> |vs| < 0x100 && AllEncodable(item, vs)
    ensures Encodable(Counted(item), Items(vs)) ==> Encode(Counted(item), Items(vs)) == [|vs|] + EncodeAll(item, vs)
  {
  }

  /** A list: its length in one byte, and its items one behind the other. */
  lemma ListStands(item: Schema, vs: seq<Value>, w: nat, b: seq<byte>, i: nat, j: nat)
    requires forall k :: 0 <= k < |vs| ==> Sized(item, vs[k], w)
    ensures Stands(Counted(item), Items(vs), b, i, j)
       <==> U8At(b, i, |vs|) && j == Place(i + 1, w, |vs|) <= |b| && RunStands(item, vs, b, i + 1, w)
  {
    hide Encode, Encodable, RunStands, EncodeAll, Place, Sized;
    CountedEncodes(item, vs);
    RunIsAll(item, vs, w, b, i + 1, j);
    PlaceFrom(i + 1, w, |vs|);
    if |vs| < 0x100 && AllEncodable(item, vs) {
      InTwo(b, i, i + 1, j, [|vs|], EncodeAll(item, vs));
      if i < |b| {
        assert b[i..i + 1] == [b[i]];
      }
    }
  }

  lemma ListSized(item: Schema, vs: seq<Value>, w: nat)
    requires forall k :: 0 <= k < |vs| ==> Sized(item, vs[k], w)
    ensures Sized(Counted(item), Items(vs), 1 + Place(0, w, |vs|))
  {
    hide Encode, Encodable, EncodeAll, AllEncodable, Place;
    CountedEncodes(item, vs);
    if |vs| < 0x100 && AllEncodable(item, vs) {
      AllSized(item, vs, w);
    }
  }

  lemma OptionEncodes(item: Schema, flag: byte, v: Value)
    ensures Encodable(Optional(item), Flagged(flag, v)) <==> flag == 0 || Encodable(item, v)
    ensures Encodable(Optional(item), Flagged(flag, v)) ==>
              Encode(Optional(item), Flagged(flag, v)) == [flag] + if flag == 0 then [] else Encode(item, v)
  {
  }

  /** A flag, and what follows it unless it is 0. */
  lemma OptionStands(item: Schema, flag: byte, v: Value, b: seq<byte>, i: nat, j: nat)
    ensures Stands(Optional(item), Flagged(flag, v), b, i, j)
       <==> U8At(b, i, flag) && if flag == 0 then j == i + 1 else Stands(item, v, b, i + 1, j)
  {
    hide Encode, Encodable;
    OptionEncodes(item, flag, v);
    if flag == 0 || Encodable(item, v) {
      InTwo(b, i, i + 1, j, [flag], if flag == 0 then [] else Encode(item, v));
      if i < |b| {
        assert b[i..i + 1] == [b[i]];
      }
      if i < j <= |b| {
        assert flag == 0 ==> (b[i + 1..j] == [] <==> j == i + 1);
      }
    }
  }

  lemma {:induction false} InOneOf(alternatives: seq<Schema>, k: nat, v: Value)
    ensures EncodableIn(OneOf(alternatives), k, v) <==> k < |alternatives| && Encodable(alternatives[k], v)
    ensures k < |alternatives| && Encodable(alternatives[k], v) ==>
              EncodeIn(OneOf(alternatives), k, v) == Encode(alternatives[k], v)
    decreases k, |alternatives|
  {
    if alternatives != [] && k > 0 {
      InOneOf(alternatives[1..], k - 1, v);
    }
  }

  lemma ChoiceEncodes(options: Options, tag: byte, v: Value)
    ensures Encodable(Choice(options), Tagged(tag, v)) <==> tag > 0 && EncodableIn(options, tag - 1, v)
    ensures Encodable(Choice(options), Tagged(tag, v)) ==>
              Encode(Choice(options), Tagged(tag, v)) == [tag] + EncodeIn(options, tag - 1, v)
  {
  }

  /** A tag, counted from 1, and what it stands for. */
  lemma ChoiceStands(alternatives: seq<Schema>, tag: byte, v: Value, b: seq<byte>, j: nat)
    requires 0 < tag <= |alternatives|
    ensures Stands(Choice(OneOf(alternatives)), Tagged(tag, v), b, 0, j)
       <==> U8At(b, 0, tag) && Stands(alternatives[tag - 1], v, b, 1, j)
  {
    hide Encode, Encodable, OneOf, EncodableIn, EncodeIn;
    ChoiceEncodes(OneOf(alternatives), tag, v);
    InOneOf(alternatives, tag - 1, v);
    if Encodable(alternatives[tag - 1], v) {
      InTwo(b, 0, 1, j, [tag], Encode(alternatives[tag - 1], v));
      if |b| > 0 {
        assert b[0..1] == [b[0]];
      }
    }
  }

  // ---- exact values ----

  /** If the encoder accepts the value, it comes back as it was. */
  predicate Exactly(s: Schema, v: Value) { Encodable(s, v) ==> Exact(s, v) }

  /** A schema without optional parts, arrays of fixed length and alternatives. */
  predicate Plain(s: Schema) {
    match s
    case Then(a, b) => Plain(a) && Plain(b)
    case Counted(item) => Plain(item)
    case _ => s.Empty? || s.F32? || IsNumber(s)
  }

  lemma {:induction false} PlainIsExact(s: Schema, v: Value)
    requires Plain(s)
    ensures Exactly(s, v)
    decreases s
  {
    if Encodable(s, v) {
      match s {
        case Then(a, b) =>
          PlainIsExact(a, v.first);
          PlainIsExact(b, v.rest);
        case Counted(item) =>
          forall i | 0 <= i < |v.items| ensures Exact(item, v.items[i]) {
            PlainIsExact(item, v.items[i]);
          }
        case _ =>
      }
    }
  }

  lemma {:induction false} PlainStruct(fs: seq<Schema>)
    requires forall k :: 0 <= k < |fs| ==> Plain(fs[k])
    ensures Plain(Struct(fs))
    decreases |fs|
  {
    if fs != [] {
      PlainStruct(fs[1..]);
    }
  }

  lemma {:induction false} StructExactly(fs: seq<Schema>, vs: seq<Value>)
    requires |vs| == |fs| && forall k :: 0 <= k < |fs| ==> Exactly(fs[k], vs[k])
    ensures Exactly(Struct(fs), Fields(vs))
    decreases |fs|
  {
    if fs != [] {
      StructExactly(fs[1..], vs[1..]);
      assert Exactly(fs[0], vs[0]);
    }
  }

  lemma ListExactly(item: Schema, vs: seq<Value>)
    requires forall k :: 0 <= k < |vs| ==> Exactly(item, vs[k])
    ensures Exactly(Counted(item), Items(vs))
  {
    if Encodable(Counted(item), Items(vs)) {
      forall k | 0 <= k < |vs| ensures Exact(item, vs[k]) {
        assert Exactly(item, vs[k]);
      }
    }
  }

  lemma {:induction false} OneOfExactly(alternatives: seq<Schema>, k: nat, v: Value)
    requires k < |alternatives| && Exactly(alternatives[k], v) && EncodableIn(OneOf(alternatives), k, v)
    ensures ExactIn(OneOf(alternatives), k, v)
    decreases k
  {
    if k == 0 {
    } else {
      OneOfExactly(alternatives[1..], k - 1, v);
    }
  }

  lemma ChoiceExactly(alternatives: seq<Schema>, tag: byte, v: Value)
    requires 0 < tag <= |alternatives| && Exactly(alternatives[tag - 1], v)
    ensures Exactly(Choice(OneOf(alternatives)), Tagged(tag, v))
  {
    if Encodable(Choice(OneOf(alternatives)), Tagged(tag, v)) {
      OneOfExactly(alternatives, tag - 1, v);
    }
  }

  /** Then the decoder makes this value of all the bytes exactly if they are its encoding. */
  lemma DecodesIff(s: Schema, v: Value, b: seq<byte>)
    requires Exactly(s, v)
    ensures Decode(s, b) == Decoded(v, []) <==> Encodable(s, v) && b == Encode(s, v)
  {
    hide Decode, Encode, Encodable, Exact;
    DecodesIffEncoded(s, b, v, []);
    if Encodable(s, v) {
      assert Encode(s, v) + [] == Encode(s, v);
    }
  }

  // ---- a fixed number of fields ----

  lemma TwoStand(fs: seq<Schema>, vs: seq<Value>, b: seq<byte>, at: seq<nat>)
    requires |fs| == |vs| == 2 && |at| == 3
    ensures (forall k :: 0 <= k < |fs| ==> Stands(fs[k], vs[k], b, at[k], at[k + 1]))
       <==> Stands(fs[0], vs[0], b, at[0], at[1])
            && Stands(fs[1], vs[1], b, at[1], at[2])
  {
    hide Stands;
  }

  lemma ThreeStand(fs: seq<Schema>, vs: seq<Value>, b: seq<byte>, at: seq<nat>)
    requires |fs| == |vs| == 3 && |at| == 4
    ensures (forall k :: 0 <= k < |fs| ==> Stands(fs[k], vs[k], b, at[k], at[k + 1]))
       <==> Stands(fs[0], vs[0], b, at[0], at[1])
            && Stands(fs[1], vs[1], b, at[1], at[2])
            && Stands(fs[2], vs[2], b, at[2], at[3])
  {
    hide Stands;
  }

  lemma FourStand(fs: seq<Schema>, vs: seq<Value>, b: seq<byte>, at: seq<nat>)
    requires |fs| == |vs| == 4 && |at| == 5
    ensures (forall k :: 0 <= k < |fs| ==> Stands(fs[k], vs[k], b, at[k], at[k + 1]))
       <==> Stands(fs[0], vs[0], b, at[0], at[1])
            && Stands(fs[1], vs[1], b, at[1], at[2])
            && Stands(fs[2], vs[2], b, at[2], at[3])
            && Stands(fs[3], vs[3], b, at[3], at[4])
  {
    hide Stands;
  }

  lemma FiveStand(fs: seq<Schema>, vs: seq<Value>, b: seq<byte>, at: seq<nat>)
    requires |fs| == |vs| == 5 && |at| == 6
    ensures (forall k :: 0 <= k < |fs| ==> Stands(fs[k], vs[k], b, at[k], at[k + 1]))
       <==> Stands(fs[0], vs[0], b, at[0], at[1])
            && Stands(fs[1], vs[1], b, at[1], at[2])
            && Stands(fs[2], vs[2], b, at[2], at[3])
            && Stands(fs[3], vs[3], b, at[3], at[4])
            && Stands(fs[4], vs[4], b, at[4], at[5])
  {
    hide Stands;
  }

  lemma SixStand(fs: seq<Schema>, vs: seq<Value>, b: seq<byte>, at: seq<nat>)
    requires |fs| == |vs| == 6 && |at| == 7
    ensures (forall k :: 0 <= k < |fs| ==> Stands(fs[k], vs[k], b, at[k], at[k + 1]))
       <==> Stands(fs[0], vs[0], b, at[0], at[1])
            && Stands(fs[1], vs[1], b, at[1], at[2])
            && Stands(fs[2], vs[2], b, at[2], at[3])
            && Stands(fs[3], vs[3], b, at[3], at[4])
            && Stands(fs[4], vs[4], b, at[4], at[5])
            && Stands(fs[5], vs[5], b, at[5], at[6])
  {
    hide Stands;
  }

  lemma SevenStand(fs: seq<Schema>, vs: seq<Value>, b: seq<byte>, at: seq<nat>)
    requires |fs| == |vs| == 7 && |at| == 8
    ensures (forall k :: 0 <= k < |fs| ==> Stands(fs[k], vs[k], b, at[k], at[k + 1]))
       <==> Stands(fs[0], vs[0], b, at[0], at[1])
            && Stands(fs[1], vs[1], b, at[1], at[2])
            && Stands(fs[2], vs[2], b, at[2], at[3])
            && Stands(fs[3], vs[3], b, at[3], at[4])
            && Stands(fs[4], vs[4], b, at[4], at[5])
            && Stands(fs[5], vs[5], b, at[5], at[6])
            && Stands(fs[6], vs[6], b, at[6], at[7])
  {
    hide Stands;
  }

  lemma EightStand(fs: seq<Schema>, vs: seq<Value>, b: seq<byte>, at: seq<nat>)
    requires |fs| == |vs| == 8 && |at| == 9
    ensures (forall k :: 0 <= k < |fs| ==> Stands(fs[k], vs[k], b, at[k], at[k + 1]))
       <==> Stands(fs[0], vs[0], b, at[0], at[1])
            && Stands(fs[1], vs[1], b, at[1], at[2])
            && Stands(fs[2], vs[2], b, at[2], at[3])
            && Stands(fs[3], vs[3], b, at[3], at[4])
            && Stands(fs[4], vs[4], b, at[4], at[5])
            && Stands(fs[5], vs[5], b, at[5], at[6])
            && Stands(fs[6], vs[6], b, at[6], at[7])
            && Stands(fs[7], vs[7], b, at[7], at[8])
  {
    hide Stands;
  }
}
