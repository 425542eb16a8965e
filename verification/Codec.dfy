/** The hub's binary protocol: every message as a schema, one encoder and one decoder for all of them (badge_protocol.py). */
module Codec {
  import opened Bytes

  /** What a message consists of. */
  datatype Schema =
    | U8 | I8 | U16 | I16 | U32
    | F32                              // four bytes, not looked into
    | Empty
    | Then(first: Schema, rest: Schema)
    | Times(n: nat, item: Schema)      // an array of fixed length
    | Counted(item: Schema)            // a list behind its length, in one byte
    | Optional(item: Schema)           // a flag, and something behind it unless the flag is 0
    | Choice(options: Options)         // a tag, counted from 1, and the message it stands for

  datatype Options = NoMore | Or(head: Schema, tail: Options)

  datatype Value =
    | Num(n: int)
    | Raw(bytes: seq<byte>)
    | Unit
    | Pair(first: Value, rest: Value)
    | Items(items: seq<Value>)
    | Flagged(flag: byte, item: Value)
    | Tagged(tag: byte, item: Value)

  // ---- numbers ----

  function Lowest(s: Schema): int {
    match s case I8 => -0x80 case I16 => -0x8000 case _ => 0
  }

  function Width(s: Schema): nat {
    match s case U8 => 1 case I8 => 1 case U16 => 2 case I16 => 2 case U32 => 4 case _ => 0
  }

  function Values(s: Schema): nat {
    match s case U8 => 0x100 case I8 => 0x100 case U16 => 0x1_0000 case I16 => 0x1_0000 case U32 => 0x1_0000_0000 case _ => 0
  }

  predicate IsNumber(s: Schema) { s.U8? || s.I8? || s.U16? || s.I16? || s.U32? }

  predicate InRange(s: Schema, n: int) { Lowest(s) <= n < Lowest(s) + Values(s) }

  /** Big-endian, negative numbers in two's complement. */
  function Pack(s: Schema, n: int): (r: seq<byte>)
    requires IsNumber(s) && InRange(s, n)
    ensures |r| == Width(s)
  {
    var m := if n < 0 then n + Values(s) else n;
    if s.U8? || s.I8? then [m] else if s.U16? || s.I16? then Encode16(m) else Encode32(m)
  }

  function Unpack(s: Schema, b: seq<byte>): int
    requires IsNumber(s) && |b| == Width(s)
  {
    var m: int := if s.U8? || s.I8? then b[0] else if s.U16? || s.I16? then Decode16(b) else Decode32(b);
    if m >= Lowest(s) + Values(s) then m - Values(s) else m
  }

  lemma UnpackPack(s: Schema, n: int)
    requires IsNumber(s) && InRange(s, n)
    ensures Unpack(s, Pack(s, n)) == n
  {
    var m := if n < 0 then n + Values(s) else n;
    if s.U16? || s.I16? {
      Decode16Encode16(m);
    } else if s.U32? {
      Decode32Encode32(m);
    }
    hide Encode16, Decode16, Encode32, Decode32;
  }

  lemma PackUnpack(s: Schema, b: seq<byte>)
    requires IsNumber(s) && |b| == Width(s)
    ensures InRange(s, Unpack(s, b)) && Pack(s, Unpack(s, b)) == b
  {
    if s.U16? || s.I16? {
      Encode16Decode16(b);
    } else if s.U32? {
      Encode32Decode32(b);
    }
    hide Encode16, Encode32, Decode32;
  }

  // ---- encoding ----

  /**
   * The encoder accepts the value. It raises an exception for a number out of range, a list of more than 255 items, an
   * array that is too short or a part that is missing; it does not mind an array that is too long, nor something behind a
   * flag that says there is nothing.
   */
  predicate Encodable(s: Schema, v: Value)
    decreases s
  {
    match s
    case Empty => v.Unit?
    case F32 => v.Raw? && |v.bytes| == 4
    case Then(a, b) => v.Pair? && Encodable(a, v.first) && Encodable(b, v.rest)
    case Times(n, item) => v.Items? && |v.items| >= n && forall i :: 0 <= i < n ==> Encodable(item, v.items[i])
    case Counted(item) => v.Items? && |v.items| < 0x100 && forall i :: 0 <= i < |v.items| ==> Encodable(item, v.items[i])
    case Optional(item) => v.Flagged? && (v.flag != 0 ==> Encodable(item, v.item))
    case Choice(options) => v.Tagged? && v.tag > 0 && EncodableIn(options, v.tag - 1, v.item)
    case _ => v.Num? && InRange(s, v.n)
  }

  predicate EncodableIn(options: Options, k: nat, v: Value)
    decreases options
  {
    match options
    case NoMore => false
    case Or(head, tail) => if k == 0 then Encodable(head, v) else EncodableIn(tail, k - 1, v)
  }

  /** Every array has its length, and nothing is behind a flag that says so. */
  predicate Exact(s: Schema, v: Value)
    requires Encodable(s, v)
    decreases s
  {
    match s
    case Then(a, b) => Exact(a, v.first) && Exact(b, v.rest)
    case Times(n, item) => |v.items| == n && forall i :: 0 <= i < n ==> Exact(item, v.items[i])
    case Counted(item) => forall i :: 0 <= i < |v.items| ==> Exact(item, v.items[i])
    case Optional(item) => if v.flag == 0 then v.item.Unit? else Exact(item, v.item)
    case Choice(options) => ExactIn(options, v.tag - 1, v.item)
    case _ => true
  }

  predicate ExactIn(options: Options, k: nat, v: Value)
    requires EncodableIn(options, k, v)
    decreases options
  {
    if k == 0 then Exact(options.head, v) else ExactIn(options.tail, k - 1, v)
  }

  /** Well-formed messages. */
  predicate WellFormed(s: Schema, v: Value) { Encodable(s, v) && Exact(s, v) }

  predicate AllWellFormed(item: Schema, vs: seq<Value>) {
    forall i :: 0 <= i < |vs| ==> WellFormed(item, vs[i])
  }

  predicate WellFormedIn(options: Options, k: nat, v: Value) { EncodableIn(options, k, v) && ExactIn(options, k, v) }

  function Encode(s: Schema, v: Value): seq<byte>
    requires Encodable(s, v)
    decreases s, 0
  {
    match s
    case Empty => []
    case F32 => v.bytes
    case Then(a, b) => Encode(a, v.first) + Encode(b, v.rest)
    case Times(n, item) => EncodeAll(item, v.items[..n])
    case Counted(item) => [|v.items|] + EncodeAll(item, v.items)
    case Optional(item) => [v.flag] + if v.flag == 0 then [] else Encode(item, v.item)
    case Choice(options) => [v.tag] + EncodeIn(options, v.tag - 1, v.item)
    case _ => Pack(s, v.n)
  }

  function EncodeAll(item: Schema, vs: seq<Value>): seq<byte>
    requires forall i :: 0 <= i < |vs| ==> Encodable(item, vs[i])
    decreases item, 1 + |vs|
  {
    if vs == [] then [] else EncodeAll(item, vs[..|vs| - 1]) + Encode(item, vs[|vs| - 1])
  }

  function EncodeIn(options: Options, k: nat, v: Value): seq<byte>
    requires EncodableIn(options, k, v)
    decreases options, 0
  {
    if k == 0 then Encode(options.head, v) else EncodeIn(options.tail, k - 1, v)
  }

  // ---- decoding ----

  datatype Decoded = Failed | Decoded(value: Value, rest: seq<byte>)

  function Decode(s: Schema, b: seq<byte>): Decoded
    decreases s, 0
  {
    match s
    case Empty => Decoded(Unit, b)
    case F32 => if |b| < 4 then Failed else Decoded(Raw(b[..4]), b[4..])
    case Then(x, y) =>
      (match Decode(x, b)
       case Failed => Failed
       case Decoded(v, b1) =>
         match Decode(y, b1)
         case Failed => Failed
         case Decoded(w, b2) => Decoded(Pair(v, w), b2))
    case Times(n, item) => DecodeAll(item, n, b)
    case Counted(item) => if b == [] then Failed else DecodeAll(item, b[0], b[1..])
    case Optional(item) =>
      if b == [] then Failed
      else if b[0] == 0 then Decoded(Flagged(0, Unit), b[1..])
      else
        (match Decode(item, b[1..])
         case Failed => Failed
         case Decoded(v, rest) => Decoded(Flagged(b[0], v), rest))
    case Choice(options) =>
      if b == [] || b[0] == 0 then Failed
      else
        (match DecodeIn(options, b[0] - 1, b[1..])
         case Failed => Failed
         case Decoded(v, rest) => Decoded(Tagged(b[0], v), rest))
    case _ => if |b| < Width(s) then Failed else Decoded(Num(Unpack(s, b[..Width(s)])), b[Width(s)..])
  }

  function DecodeAll(item: Schema, n: nat, b: seq<byte>): (r: Decoded)
    ensures r.Decoded? ==> r.value.Items? && |r.value.items| == n
    decreases item, 1 + n
  {
    if n == 0 then Decoded(Items([]), b)
    else
      match DecodeAll(item, n - 1, b)
      case Failed => Failed
      case Decoded(vs, b1) =>
        match Decode(item, b1)
        case Failed => Failed
        case Decoded(v, b2) => Decoded(Items(vs.items + [v]), b2)
  }

  function DecodeIn(options: Options, k: nat, b: seq<byte>): Decoded
    decreases options, 0
  {
    match options
    case NoMore => Failed
    case Or(head, tail) => if k == 0 then Decode(head, b) else DecodeIn(tail, k - 1, b)
  }

  // ---- the round trip ----

  lemma Regroup(a: seq<byte>, b: seq<byte>, c: seq<byte>)
    ensures a + b + c == a + (b + c)
  {
  }

  lemma Front(a: seq<byte>, b: seq<byte>)
    ensures (a + b)[..|a|] == a && (a + b)[|a|..] == b
  {
  }

  /** Decoding an encoded message gives it back, and leaves exactly what followed it. */
  lemma {:induction false} RoundTrip(s: Schema, v: Value, suffix: seq<byte>)
    requires WellFormed(s, v)
    ensures Decode(s, Encode(s, v) + suffix) == Decoded(v, suffix)
    decreases s, 0
  {
    match s {
      case Empty => assert Encode(s, v) + suffix == suffix;
      case F32 => Front(v.bytes, suffix);
      case Then(a, b) =>
        var x, y := Encode(a, v.first), Encode(b, v.rest);
        Regroup(x, y, suffix);
        RoundTrip(a, v.first, y + suffix);
        RoundTrip(b, v.rest, suffix);
      case Times(n, item) =>
        assert v.items[..n] == v.items;
        RoundTripAll(item, v.items, suffix);
      case Counted(item) =>
        Front([|v.items|], EncodeAll(item, v.items) + suffix);
        Regroup([|v.items|], EncodeAll(item, v.items), suffix);
        RoundTripAll(item, v.items, suffix);
      case Optional(item) =>
        var rest := if v.flag == 0 then [] else Encode(item, v.item);
        Front([v.flag], rest + suffix);
        Regroup([v.flag], rest, suffix);
        if v.flag != 0 {
          RoundTrip(item, v.item, suffix);
        } else {
          assert [] + suffix == suffix;
        }
      case Choice(options) =>
        Front([v.tag], EncodeIn(options, v.tag - 1, v.item) + suffix);
        Regroup([v.tag], EncodeIn(options, v.tag - 1, v.item), suffix);
        RoundTripIn(options, v.tag - 1, v.item, suffix);
      case _ =>
        UnpackPack(s, v.n);
        Front(Pack(s, v.n), suffix);
    }
  }

  lemma {:induction false} RoundTripAll(item: Schema, vs: seq<Value>, suffix: seq<byte>)
    requires AllWellFormed(item, vs)
    ensures DecodeAll(item, |vs|, EncodeAll(item, vs) + suffix) == Decoded(Items(vs), suffix)
    decreases item, 1 + |vs|
  {
    hide Encode, Decode, Encodable, Exact, EncodeAll, DecodeAll;
    EncodeAllUnfolds(item, vs);
    if vs == [] {
      assert EncodeAll(item, vs) + suffix == suffix;
      DecodeNone(item, suffix);
    } else {
      var n := |vs| - 1;
      var x, y := EncodeAll(item, vs[..n]), Encode(item, vs[n]);
      Regroup(x, y, suffix);
      RoundTripAll(item, vs[..n], y + suffix);
      RoundTrip(item, vs[n], suffix);
      DecodeOneMore(item, n, x + (y + suffix), vs[..n], y + suffix);
      assert vs[..n] + [vs[n]] == vs;
    }
  }

  lemma EncodeAllUnfolds(item: Schema, vs: seq<Value>)
    requires forall i :: 0 <= i < |vs| ==> Encodable(item, vs[i])
    ensures vs == [] ==> EncodeAll(item, vs) == []
    ensures vs != [] ==> EncodeAll(item, vs) == EncodeAll(item, vs[..|vs| - 1]) + Encode(item, vs[|vs| - 1])
  {
    hide Encode, Encodable;
  }

  lemma DecodeNone(item: Schema, b: seq<byte>)
    ensures DecodeAll(item, 0, b) == Decoded(Items([]), b)
  {
  }

  lemma DecodeOneMore(item: Schema, n: nat, b: seq<byte>, vs: seq<Value>, b1: seq<byte>)
    requires DecodeAll(item, n, b) == Decoded(Items(vs), b1)
    ensures DecodeAll(item, n + 1, b)
         == match Decode(item, b1) case Failed => Failed case Decoded(v, b2) => Decoded(Items(vs + [v]), b2)
  {
    hide Decode;
  }

  lemma {:induction false} RoundTripIn(options: Options, k: nat, v: Value, suffix: seq<byte>)
    requires WellFormedIn(options, k, v)
    ensures DecodeIn(options, k, EncodeIn(options, k, v) + suffix) == Decoded(v, suffix)
    decreases options, 0
  {
    if k == 0 {
      RoundTrip(options.head, v, suffix);
    } else {
      RoundTripIn(options.tail, k - 1, v, suffix);
    }
  }

  /** Whatever decodes is the encoding of what it decodes to: there is no other way to write a message. */
  lemma {:induction false} Canonical(s: Schema, b: seq<byte>)
    requires Decode(s, b).Decoded?
    ensures var d := Decode(s, b); WellFormed(s, d.value) && b == Encode(s, d.value) + d.rest
    decreases s, 2
  {
    hide EncodeAll, DecodeAll, EncodeIn, DecodeIn, EncodableIn, ExactIn, Pack, Unpack;
    match s {
      case Empty =>
      case F32 =>
      case Then(x, y) => CanonicalThen(x, y, b);
      case Times(n, item) => CanonicalTimes(n, item, b);
      case Counted(item) => CanonicalCounted(item, b);
      case Optional(item) => CanonicalOptional(item, b);
      case Choice(options) => CanonicalChoice(options, b);
      case _ => PackUnpack(s, b[..Width(s)]);
    }
  }

  lemma {:induction false} CanonicalThen(x: Schema, y: Schema, b: seq<byte>)
    requires Decode(Then(x, y), b).Decoded?
    ensures var d := Decode(Then(x, y), b); WellFormed(Then(x, y), d.value) && b == Encode(Then(x, y), d.value) + d.rest
    decreases Then(x, y), 1
  {
    var d := Decode(Then(x, y), b);
    Canonical(x, b);
    Canonical(y, Decode(x, b).rest);
    Regroup(Encode(x, d.value.first), Encode(y, d.value.rest), d.rest);
  }

  lemma {:induction false} CanonicalTimes(n: nat, item: Schema, b: seq<byte>)
    requires Decode(Times(n, item), b).Decoded?
    ensures var s, d := Times(n, item), Decode(Times(n, item), b); WellFormed(s, d.value) && b == Encode(s, d.value) + d.rest
    decreases Times(n, item), 1
  {
    var d := Decode(Times(n, item), b);
    CanonicalAll(item, n, b);
    assert d.value.items[..n] == d.value.items;
    hide EncodeAll, DecodeAll;
  }

  lemma {:induction false} CanonicalCounted(item: Schema, b: seq<byte>)
    requires Decode(Counted(item), b).Decoded?
    ensures var d := Decode(Counted(item), b); WellFormed(Counted(item), d.value) && b == Encode(Counted(item), d.value) + d.rest
    decreases Counted(item), 1
  {
    var d := Decode(Counted(item), b);
    CanonicalAll(item, b[0], b[1..]);
    assert b == [b[0]] + b[1..];
    Regroup([b[0]], EncodeAll(item, d.value.items), d.rest);
    hide EncodeAll, DecodeAll;
  }

  lemma {:induction false} CanonicalChoice(options: Options, b: seq<byte>)
    requires Decode(Choice(options), b).Decoded?
    ensures var d := Decode(Choice(options), b); WellFormed(Choice(options), d.value) && b == Encode(Choice(options), d.value) + d.rest
    decreases Choice(options), 1
  {
    var d := Decode(Choice(options), b);
    assert b == [b[0]] + b[1..];
    CanonicalIn(options, b[0] - 1, b[1..]);
    Regroup([b[0]], EncodeIn(options, b[0] - 1, d.value.item), d.rest);
  }

  lemma {:induction false} CanonicalOptional(item: Schema, b: seq<byte>)
    requires Decode(Optional(item), b).Decoded?
    ensures var d := Decode(Optional(item), b); WellFormed(Optional(item), d.value) && b == Encode(Optional(item), d.value) + d.rest
    decreases item, 3
  {
    var d := Decode(Optional(item), b);
    assert b == [b[0]] + b[1..];
    if b[0] != 0 {
      Canonical(item, b[1..]);
      Regroup([b[0]], Encode(item, d.value.item), d.rest);
    } else {
      assert [b[0]] + [] == [b[0]];
    }
  }

  lemma {:induction false} CanonicalAll(item: Schema, n: nat, b: seq<byte>)
    requires DecodeAll(item, n, b).Decoded?
    ensures var d := DecodeAll(item, n, b);
      && AllWellFormed(item, d.value.items)
      && b == EncodeAll(item, d.value.items) + d.rest
    decreases item, 3 + n
  {
    hide Decode, Encode, Encodable, Exact;
    if n > 0 {
      CanonicalAll(item, n - 1, b);
      var d1 := DecodeAll(item, n - 1, b);
      Canonical(item, d1.rest);
      var d2 := Decode(item, d1.rest);
      hide AllWellFormed, WellFormed, EncodeAll;
      OneMoreEncoded(item, d1.value.items, d2.value, b, d1.rest, d2.rest);
    }
  }

  lemma OneMoreEncoded(item: Schema, vs: seq<Value>, v: Value, b: seq<byte>, b1: seq<byte>, b2: seq<byte>)
    requires AllWellFormed(item, vs) && WellFormed(item, v) && b == EncodeAll(item, vs) + b1 && b1 == Encode(item, v) + b2
    ensures AllWellFormed(item, vs + [v]) && b == EncodeAll(item, vs + [v]) + b2
  {
    hide Encode, Encodable, Exact;
    assert (vs + [v])[..|vs|] == vs;
    EncodeAllUnfolds(item, vs + [v]);
    hide EncodeAll;
    Regroup(EncodeAll(item, vs), Encode(item, v), b2);
  }

  lemma {:induction false} CanonicalIn(options: Options, k: nat, b: seq<byte>)
    requires DecodeIn(options, k, b).Decoded?
    ensures var d := DecodeIn(options, k, b);
            WellFormedIn(options, k, d.value) && b == EncodeIn(options, k, d.value) + d.rest
    decreases options, 0
  {
    if k == 0 {
      Canonical(options.head, b);
    } else {
      CanonicalIn(options.tail, k - 1, b);
    }
  }

  /** A buffer decodes to a message exactly if it begins with the encoding of that message. */
  lemma DecodesIffEncoded(s: Schema, b: seq<byte>, v: Value, rest: seq<byte>)
    ensures Decode(s, b) == Decoded(v, rest) <==> WellFormed(s, v) && b == Encode(s, v) + rest
  {
    hide Decode, Encode, Encodable, Exact;
    if Decode(s, b) == Decoded(v, rest) {
      Canonical(s, b);
    }
    if WellFormed(s, v) && b == Encode(s, v) + rest {
      RoundTrip(s, v, rest);
    }
  }

  /** No encoding begins another one; different messages have different encodings. */
  lemma PrefixFree(s: Schema, v: Value, w: Value)
    requires WellFormed(s, v) && WellFormed(s, w) && Encode(s, v) <= Encode(s, w)
    ensures v == w
  {
    hide Decode, Encode, Encodable, Exact;
    var x, y := Encode(s, v), Encode(s, w);
    assert y == x + y[|x|..] && y == y + [];
    RoundTrip(s, v, y[|x|..]);
    RoundTrip(s, w, []);
  }

  /** Of the values that the encoder accepts, exactly the well-formed ones come back. */
  lemma RoundTripIff(s: Schema, v: Value, suffix: seq<byte>)
    requires Encodable(s, v)
    ensures Decode(s, Encode(s, v) + suffix) == Decoded(v, suffix) <==> Exact(s, v)
  {
    hide Decode, Encode, Encodable, Exact;
    if Exact(s, v) {
      RoundTrip(s, v, suffix);
    }
    if Decode(s, Encode(s, v) + suffix) == Decoded(v, suffix) {
      Canonical(s, Encode(s, v) + suffix);
    }
  }

  // ---- the code ----

  class Ostream {
    var buf: seq<byte>

    constructor ()
      ensures buf == []
    {
      buf := [];
    }

    method Write(data: seq<byte>)
      modifies this
      ensures buf == old(buf) + data
    {
      buf := buf + data;
    }
  }

  class Istream {
    var buf: seq<byte>

    constructor (buf: seq<byte>)
      ensures this.buf == buf
    {
      this.buf := buf;
    }

    /** Not enough bytes raise an exception, here `!ok`. */
    method Read(l: nat) returns (ok: bool, data: seq<byte>)
      modifies this
      ensures ok <==> l <= |old(buf)|
      ensures if ok then data == old(buf)[..l] && buf == old(buf)[l..] else buf == old(buf)
    {
      ok, data := l <= |buf|, [];
      if ok {
        data := buf[..l];
        buf := buf[l..];
      }
    }
  }

  /** `encode_internal`, of every message. An exception is `!ok`, and leaves a part of the message in the stream. */
  method EncodeInternal(s: Schema, v: Value, out: Ostream) returns (ok: bool)
    modifies out
    ensures ok <==> Encodable(s, v)
    ensures ok ==> out.buf == old(out.buf) + Encode(s, v)
    decreases s, 0
  {
    ok := true;
    match s {
      case Empty =>
        ok := v.Unit?;
      case F32 =>
        ok := v.Raw? && |v.bytes| == 4;
        if ok {
          out.Write(v.bytes);
        }
      case Then(a, b) =>
        ok := v.Pair?;
        if ok {
          ok := EncodeInternal(a, v.first, out);
          if ok {
            ok := EncodeInternal(b, v.rest, out);
          }
        }
      case Times(n, item) =>
        ok := v.Items? && |v.items| >= n;
        if ok {
          ok := EncodeItems(item, v.items[..n], out);
        }
      case Counted(item) =>
        ok := v.Items? && |v.items| < 0x100;
        if ok {
          out.Write([|v.items|]);
          ok := EncodeItems(item, v.items, out);
        }
      case Optional(item) =>
        ok := v.Flagged?;
        if ok {
          out.Write([v.flag]);
          if v.flag != 0 {
            ok := EncodeInternal(item, v.item, out);
          }
        }
      case Choice(options) =>
        ok := v.Tagged?;
        if ok {
          out.Write([v.tag]);
          ok := v.tag > 0;
          if ok {
            ok := EncodeOption(options, v.tag - 1, v.item, out);
          }
        }
      case _ =>
        ok := v.Num? && InRange(s, v.n);
        if ok {
          out.Write(Pack(s, v.n));
        }
    }
  }

  method EncodeItems(item: Schema, vs: seq<Value>, out: Ostream) returns (ok: bool)
    modifies out
    ensures ok <==> forall i :: 0 <= i < |vs| ==> Encodable(item, vs[i])
    ensures ok ==> out.buf == old(out.buf) + EncodeAll(item, vs)
    decreases item, 1
  {
    hide Encode, Encodable;
    ok := true;
    var i := 0;
    while i < |vs|
      invariant 0 <= i <= |vs| && ok
      invariant forall k :: 0 <= k < i ==> Encodable(item, vs[k])
      invariant out.buf == old(out.buf) + EncodeAll(item, vs[..i])
    {
      ok := EncodeInternal(item, vs[i], out);
      if !ok {
        return;
      }
      assert vs[..i + 1][..i] == vs[..i] && vs[..i + 1][i] == vs[i];
      Regroup(old(out.buf), EncodeAll(item, vs[..i]), Encode(item, vs[i]));
      i := i + 1;
    }
    assert vs[..|vs|] == vs;
  }

  method EncodeOption(options: Options, k: nat, v: Value, out: Ostream) returns (ok: bool)
    modifies out
    ensures ok <==> EncodableIn(options, k, v)
    ensures ok ==> out.buf == old(out.buf) + EncodeIn(options, k, v)
    decreases options, 0
  {
    match options {
      case NoMore => ok := false;
      case Or(head, tail) =>
        if k == 0 {
          ok := EncodeInternal(head, v, out);
        } else {
          ok := EncodeOption(tail, k - 1, v, out);
        }
    }
  }

  /** `decode_internal`, of every message. */
  method DecodeInternal(s: Schema, input: Istream) returns (ok: bool, v: Value)
    modifies input
    ensures ok <==> Decode(s, old(input.buf)).Decoded?
    ensures ok ==> Decode(s, old(input.buf)) == Decoded(v, input.buf)
    decreases s, 0
  {
    ok, v := true, Unit;
    var data;
    match s {
      case Empty =>
      case F32 =>
        ok, data := input.Read(4);
        v := Raw(data);
      case Then(a, b) =>
        var first;
        ok, first := DecodeInternal(a, input);
        if ok {
          var rest;
          ok, rest := DecodeInternal(b, input);
          v := Pair(first, rest);
        }
      case Times(n, item) =>
        var items;
        ok, items := DecodeItems(item, n, input);
        v := Items(items);
      case Counted(item) =>
        ok, data := input.Read(1);
        if ok {
          var items;
          ok, items := DecodeItems(item, data[0], input);
          v := Items(items);
        }
      case Optional(item) =>
        ok, data := input.Read(1);
        if ok {
          v := Flagged(data[0], Unit);
          if data[0] != 0 {
            var w;
            ok, w := DecodeInternal(item, input);
            v := Flagged(data[0], w);
          }
        }
      case Choice(options) =>
        ok, data := input.Read(1);
        ok := ok && data[0] != 0;
        if ok {
          var w;
          ok, w := DecodeOption(options, data[0] - 1, input);
          v := Tagged(data[0], w);
        }
      case _ =>
        ok, data := input.Read(Width(s));
        if ok {
          v := Num(Unpack(s, data));
        }
    }
  }

  method DecodeItems(item: Schema, n: nat, input: Istream) returns (ok: bool, items: seq<Value>)
    modifies input
    ensures ok <==> DecodeAll(item, n, old(input.buf)).Decoded?
    ensures ok ==> DecodeAll(item, n, old(input.buf)) == Decoded(Items(items), input.buf)
    decreases item, 1
  {
    hide Decode;
    ok, items := true, [];
    var i := 0;
    while i < n
      invariant 0 <= i <= n && ok && DecodeAll(item, i, old(input.buf)) == Decoded(Items(items), input.buf)
    {
      var v;
      ok, v := DecodeInternal(item, input);
      if !ok {
        FailsForGood(item, i + 1, n, old(input.buf));
        return;
      }
      items := items + [v];
      i := i + 1;
    }
  }

  lemma {:induction false} FailsForGood(item: Schema, i: nat, n: nat, b: seq<byte>)
    requires i <= n && DecodeAll(item, i, b).Failed?
    ensures DecodeAll(item, n, b).Failed?
    decreases n
  {
    if i < n {
      FailsForGood(item, i, n - 1, b);
    }
  }

  method DecodeOption(options: Options, k: nat, input: Istream) returns (ok: bool, v: Value)
    modifies input
    ensures ok <==> DecodeIn(options, k, old(input.buf)).Decoded?
    ensures ok ==> DecodeIn(options, k, old(input.buf)) == Decoded(v, input.buf)
    decreases options, 0
  {
    match options {
      case NoMore => ok, v := false, Unit;
      case Or(head, tail) =>
        if k == 0 {
          ok, v := DecodeInternal(head, input);
        } else {
          ok, v := DecodeOption(tail, k - 1, input);
        }
    }
  }
}
