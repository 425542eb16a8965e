/** The requests and responses of the badge protocol, as schemas (badge_protocol.py). */
module Messages {
  import opened Bytes
  import opened Codec
  import Framing

  /** Fields one behind the other. */
  function Struct(fields: seq<Schema>): Schema {
    if fields == [] then Empty else Then(fields[0], Struct(fields[1..]))
  }

  /** Alternatives, the first one with tag 1. */
  function OneOf(alternatives: seq<Schema>): Options {
    if alternatives == [] then NoMore else Or(alternatives[0], OneOf(alternatives[1..]))
  }

  // ---- parts ----

  function Timestamp(): Schema { Struct([U32, U16]) }
  function BadgeAssignement(): Schema { Struct([U16, U8]) }
  function BatteryData(): Schema { Struct([F32]) }
  function MicrophoneData(): Schema { Struct([U8]) }
  function ScanDevice(): Schema { Struct([U16, I8]) }
  function ScanResultData(): Schema { Struct([ScanDevice(), U8]) }
  function AccelerometerData(): Schema { Struct([U16]) }
  function AccelerometerRawData(): Schema { Struct([Times(3, I16)]) }
  function BatteryStream(): Schema { Struct([BatteryData()]) }
  function MicrophoneStream(): Schema { Struct([MicrophoneData()]) }
  function ScanStream(): Schema { Struct([ScanDevice()]) }
  function AccelerometerStream(): Schema { Struct([AccelerometerRawData()]) }
  function AccelerometerInterruptStream(): Schema { Struct([Timestamp()]) }

  // ---- requests ----

  function StatusRequest(): Schema { Struct([Timestamp(), Optional(BadgeAssignement())]) }
  function StartMicrophone(): Schema { Struct([Timestamp(), U16, U16]) }
  function StartScan(): Schema { Struct([Timestamp(), U16, U16, U16, U16, U16, U8]) }
  function StartAccelerometer(): Schema { Struct([Timestamp(), U16, U8, U8, U16, U16]) }
  function StartAccelerometerInterrupt(): Schema { Struct([Timestamp(), U16, U16, U16, U32]) }
  function StartBattery(): Schema { Struct([Timestamp(), U16, U32]) }
  function DataSince(): Schema { Struct([Timestamp()]) }
  function Identify(): Schema { Struct([U16]) }
  function Bare(): Schema { Struct([]) }

  /** Sampling and streaming begin with the same parameters and end with none. */
  function Controls(): seq<Schema> {
    [StartMicrophone(), Bare(), StartScan(), Bare(), StartAccelerometer(), Bare(),
     StartAccelerometerInterrupt(), Bare(), StartBattery(), Bare()]
  }

  /** The requests, in the order of their tags. */
  function Requests(): seq<Schema> {
    [StatusRequest()] + Controls() + [DataSince(), DataSince(), DataSince(), DataSince(), DataSince()]
    + Controls() + [Identify(), Bare(), Bare()]
  }

  function Request(): Schema { Choice(OneOf(Requests())) }

  // ---- responses ----

  function StatusResponse(): Schema { Struct([U8, U8, U8, U8, U8, U8, Timestamp(), BatteryData()]) }
  function Started(): Schema { Struct([Timestamp()]) }
  function MicrophoneDataResponse(): Schema { Struct([U8, Timestamp(), U16, Counted(MicrophoneData())]) }
  function ScanDataResponse(): Schema { Struct([U8, Timestamp(), Counted(ScanResultData())]) }
  function AccelerometerDataResponse(): Schema { Struct([U8, Timestamp(), Counted(AccelerometerData())]) }
  function AccelerometerInterruptDataResponse(): Schema { Struct([U8, Timestamp()]) }
  function BatteryDataResponse(): Schema { Struct([U8, Timestamp(), BatteryData()]) }
  function StreamResponse(): Schema {
    Struct([Timestamp(), Counted(BatteryStream()), Counted(MicrophoneStream()), Counted(ScanStream()),
            Counted(AccelerometerStream()), Counted(AccelerometerInterruptStream())])
  }
  function TestResponse(): Schema { Struct([U8]) }

  /** The responses, in the order of their tags. */
  function Responses(): seq<Schema> {
    [StatusResponse(), Started(), Started(), Started(), Started(), Started(), MicrophoneDataResponse(), ScanDataResponse(),
     AccelerometerDataResponse(), AccelerometerInterruptDataResponse(), BatteryDataResponse(), StreamResponse(),
     TestResponse()]
  }

  function Response(): Schema { Choice(OneOf(Responses())) }

  // ---- how long messages get ----

  /** The length of the longest encoding. */
  function Longest(s: Schema): nat
    decreases s
  {
    match s
    case Empty => 0
    case F32 => 4
    case Then(a, b) => Longest(a) + Longest(b)
    case Times(n, item) => n * Longest(item)
    case Counted(item) => 1 + 255 * Longest(item)
    case Optional(item) => 1 + Longest(item)
    case Choice(options) => 1 + LongestIn(options)
    case _ => Width(s)
  }

  function LongestIn(options: Options): nat
    decreases options
  {
    match options
    case NoMore => 0
    case Or(head, tail) => if Longest(head) > LongestIn(tail) then Longest(head) else LongestIn(tail)
  }

  lemma {:induction false} NoneIsLonger(s: Schema, v: Value)
    requires Encodable(s, v)
    ensures |Encode(s, v)| <= Longest(s)
    decreases s, 0
  {
    match s {
      case Then(a, b) =>
        NoneIsLonger(a, v.first);
        NoneIsLonger(b, v.rest);
      case Times(n, item) => NoneIsLongerAll(item, v.items[..n]);
      case Counted(item) =>
        NoneIsLongerAll(item, v.items);
        Monotone(|v.items|, 255, Longest(item));
      case Optional(item) => if v.flag != 0 { NoneIsLonger(item, v.item); }
      case Choice(options) => NoneIsLongerIn(options, v.tag - 1, v.item);
      case _ =>
    }
  }

  lemma Monotone(a: nat, b: nat, k: nat)
    requires a <= b
    ensures a * k <= b * k
  {
  }

  lemma {:induction false} NoneIsLongerAll(item: Schema, vs: seq<Value>)
    requires forall i :: 0 <= i < |vs| ==> Encodable(item, vs[i])
    ensures |EncodeAll(item, vs)| <= |vs| * Longest(item)
    decreases item, 1 + |vs|
  {
    if vs != [] {
      NoneIsLongerAll(item, vs[..|vs| - 1]);
      NoneIsLonger(item, vs[|vs| - 1]);
      assert |vs| * Longest(item) == (|vs| - 1) * Longest(item) + Longest(item);
    }
  }

  lemma {:induction false} NoneIsLongerIn(options: Options, k: nat, v: Value)
    requires EncodableIn(options, k, v)
    ensures |EncodeIn(options, k, v)| <= LongestIn(options)
    decreases options, 0
  {
    if k == 0 {
      NoneIsLonger(options.head, v);
    } else {
      NoneIsLongerIn(options.tail, k - 1, v);
    }
  }

  lemma LongestStruct(fields: seq<Schema>)
    ensures fields == [] ==> Longest(Struct(fields)) == 0
    ensures fields != [] ==> Longest(Struct(fields)) == Longest(fields[0]) + Longest(Struct(fields[1..]))
  {
  }

  /** No alternative is longer than `n`. */
  predicate AllWithin(alternatives: seq<Schema>, n: nat) {
    forall i :: 0 <= i < |alternatives| ==> Longest(alternatives[i]) <= n
  }

  lemma {:induction false} LongestOneOf(alternatives: seq<Schema>, n: nat)
    requires AllWithin(alternatives, n)
    ensures LongestIn(OneOf(alternatives)) <= n
    decreases |alternatives|
  {
    if alternatives != [] {
      hide Longest;
      LongestOneOf(alternatives[1..], n);
    }
  }

  lemma LongestTimestamp()
    ensures Longest(Timestamp()) == 6
  {
  }

  lemma LongestStatus()
    ensures Longest(StatusRequest()) == 10
  {
    LongestTimestamp();
    assert Longest(BadgeAssignement()) == 3;
    hide Timestamp, BadgeAssignement;
  }

  lemma LongestScan()
    ensures Longest(StartScan()) == 17
  {
    LongestTimestamp();
    hide Longest, Struct, Timestamp;
    var t := Timestamp();
    var s6, s5, s4 := [U16, U16, U16, U16, U16, U8], [U16, U16, U16, U16, U8], [U16, U16, U16, U8];
    assert [t, U16, U16, U16, U16, U16, U8][1..] == s6 && s6[1..] == s5 && s5[1..] == s4;
    LongestStruct([t, U16, U16, U16, U16, U16, U8]);
    LongestStruct(s6);
    LongestStruct(s5);
    LongestFour(U16, U16, U16, U8);
    LongestNumber(U16);
    LongestNumber(U8);
  }

  lemma LongestNumber(s: Schema)
    requires IsNumber(s)
    ensures Longest(s) == Width(s)
  {
  }

  lemma LongestFour(a: Schema, b: Schema, c: Schema, d: Schema)
    ensures Longest(Struct([a, b, c, d])) == Longest(a) + Longest(b) + Longest(c) + Longest(d)
  {
    hide Longest, Struct;
    assert [a, b, c, d][1..] == [b, c, d] && [b, c, d][1..] == [c, d] && [c, d][1..] == [d] && [d][1..] == [];
    LongestStruct([a, b, c, d]);
    LongestStruct([b, c, d]);
    LongestStruct([c, d]);
    LongestStruct([d]);
    LongestStruct([]);
  }

  lemma LongestAccelerometer()
    ensures Longest(StartAccelerometer()) == 14
  {
    LongestTimestamp();
    hide Longest, Struct, Timestamp;
    var t := Timestamp();
    var s5, s4 := [U16, U8, U8, U16, U16], [U8, U8, U16, U16];
    assert [t, U16, U8, U8, U16, U16][1..] == s5 && s5[1..] == s4;
    LongestStruct([t, U16, U8, U8, U16, U16]);
    LongestStruct(s5);
    LongestFour(U8, U8, U16, U16);
    LongestNumber(U16);
    LongestNumber(U8);
  }

  lemma LongestAccelerometerInterrupt()
    ensures Longest(StartAccelerometerInterrupt()) == 16
  {
    LongestTimestamp();
    hide Longest, Struct, Timestamp;
    var t := Timestamp();
    var s4 := [U16, U16, U16, U32];
    assert [t, U16, U16, U16, U32][1..] == s4;
    LongestStruct([t, U16, U16, U16, U32]);
    LongestFour(U16, U16, U16, U32);
    LongestNumber(U16);
    LongestNumber(U32);
  }

  lemma LongestOthers()
    ensures Longest(StartMicrophone()) == 10 && Longest(StartBattery()) == 12
    ensures Longest(DataSince()) == 6 && Longest(Identify()) == 2 && Longest(Bare()) == 0
  {
    LongestTimestamp();
    hide Timestamp;
  }

  /** Every request fits the receive queue of the badge, so that waiting for it can succeed. */
  lemma RequestsAreShort(v: Value)
    requires Encodable(Request(), v)
    ensures |Encode(Request(), v)| <= 18 < Framing.RX_SIZE
  {
    LongestStatus();
    LongestScan();
    LongestAccelerometer();
    LongestAccelerometerInterrupt();
    LongestOthers();
    hide Longest, Struct, OneOf, Encode, Encodable;
    assert AllWithin(Controls(), 17);
    LongestOneOf(Requests(), 17);
    LongestChoice(OneOf(Requests()));
    NoneIsLonger(Request(), v);
  }

  lemma LongestChoice(options: Options)
    ensures Longest(Choice(options)) == 1 + LongestIn(options)
  {
  }
}
