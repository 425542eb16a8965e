/**
 * From the badge's responses to the hub: encoded and framed (request_handler_lib_02v1.c), handed to the transmit queue
 * (sender_lib.c), cut into packets by the timer, and put together and decoded again (badge.py).
 */
module Responses {
  import opened Bytes
  import opened Codec
  import opened Messages
  import Sender

  // ---- how long responses get ----

  lemma LongestParts()
    ensures Longest(BatteryData()) == 4 && Longest(MicrophoneData()) == 1 && Longest(ScanResultData()) == 4
    ensures Longest(AccelerometerData()) == 2 && Longest(BatteryStream()) == 4 && Longest(MicrophoneStream()) == 1
  {
  }

  lemma LongestOne(a: Schema)
    ensures Longest(Struct([a])) == Longest(a)
  {
    hide Longest, Struct;
    assert [a][1..] == [];
    LongestStruct([a]);
    LongestStruct([]);
  }

  lemma LongestThreeTimes(item: Schema)
    ensures Longest(Times(3, item)) == 3 * Longest(item)
  {
  }

  lemma LongestStreams()
    ensures Longest(ScanStream()) == 3 && Longest(AccelerometerStream()) == 6 && Longest(AccelerometerInterruptStream()) == 6
  {
    LongestTimestamp();
    hide Longest, Struct, Timestamp;
    LongestNumber(U16);
    LongestNumber(I8);
    LongestNumber(I16);
    LongestTwo(U16, I8);
    LongestOne(ScanDevice());
    LongestThreeTimes(I16);
    LongestOne(Times(3, I16));
    LongestOne(AccelerometerRawData());
    LongestOne(Timestamp());
  }

  lemma LongestCounted(item: Schema)
    ensures Longest(Counted(item)) == 1 + 255 * Longest(item)
  {
  }

  lemma LongestTwo(a: Schema, b: Schema)
    ensures Longest(Struct([a, b])) == Longest(a) + Longest(b)
  {
    hide Longest, Struct;
    assert [a, b][1..] == [b] && [b][1..] == [];
    LongestStruct([a, b]);
    LongestStruct([b]);
    LongestStruct([]);
  }

  lemma LongestStreamResponse()
    ensures Longest(StreamResponse()) == 5111
  {
    LongestTimestamp();
    LongestParts();
    LongestStreams();
    hide Longest, Struct, Timestamp, BatteryStream, MicrophoneStream, ScanStream, AccelerometerStream, AccelerometerInterruptStream;
    var t, a, b, c, d, e := Timestamp(), Counted(BatteryStream()), Counted(MicrophoneStream()), Counted(ScanStream()),
      Counted(AccelerometerStream()), Counted(AccelerometerInterruptStream());
    LongestCounted(BatteryStream());
    LongestCounted(MicrophoneStream());
    LongestCounted(ScanStream());
    LongestCounted(AccelerometerStream());
    LongestCounted(AccelerometerInterruptStream());
    assert [t, a, b, c, d, e][1..] == [a, b, c, d, e] && [a, b, c, d, e][1..] == [b, c, d, e];
    LongestStruct([t, a, b, c, d, e]);
    LongestStruct([a, b, c, d, e]);
    LongestFour(b, c, d, e);
  }

  lemma LongestData()
    ensures Longest(MicrophoneDataResponse()) <= 5111 && Longest(ScanDataResponse()) <= 5111
    ensures Longest(AccelerometerDataResponse()) <= 5111
  {
    LongestTimestamp();
    LongestParts();
    hide Longest, Struct, Timestamp, MicrophoneData, ScanResultData, AccelerometerData;
    var t := Timestamp();
    LongestNumber(U8);
    LongestNumber(U16);
    LongestCounted(MicrophoneData());
    LongestCounted(ScanResultData());
    LongestCounted(AccelerometerData());
    LongestFour(U8, t, U16, Counted(MicrophoneData()));
    var scan, accelerometer := Counted(ScanResultData()), Counted(AccelerometerData());
    assert [U8, t, scan][1..] == [t, scan] && [U8, t, accelerometer][1..] == [t, accelerometer];
    LongestStruct([U8, t, scan]);
    LongestTwo(t, scan);
    LongestStruct([U8, t, accelerometer]);
    LongestTwo(t, accelerometer);
  }

  lemma LongestShort()
    ensures Longest(Started()) <= 5111 && Longest(TestResponse()) <= 5111
    ensures Longest(AccelerometerInterruptDataResponse()) <= 5111 && Longest(BatteryDataResponse()) <= 5111
  {
    LongestTimestamp();
    LongestParts();
    hide Longest, Struct, Timestamp, BatteryData;
    var t, v := Timestamp(), BatteryData();
    LongestNumber(U8);
    LongestOne(t);
    LongestOne(U8);
    LongestTwo(U8, t);
    assert [U8, t, v][1..] == [t, v];
    LongestStruct([U8, t, v]);
    LongestTwo(t, v);
  }

  lemma LongestStatusResponse()
    ensures Longest(StatusResponse()) <= 5111
  {
    LongestTimestamp();
    LongestParts();
    hide Longest, Struct, Timestamp, BatteryData;
    var t, v := Timestamp(), BatteryData();
    LongestNumber(U8);
    assert [U8, U8, U8, U8, U8, U8, t, v][1..] == [U8, U8, U8, U8, U8, t, v]
        && [U8, U8, U8, U8, U8, t, v][1..] == [U8, U8, U8, U8, t, v]
        && [U8, U8, U8, U8, t, v][1..] == [U8, U8, U8, t, v] && [U8, U8, U8, t, v][1..] == [U8, U8, t, v];
    LongestStruct([U8, U8, U8, U8, U8, U8, t, v]);
    LongestStruct([U8, U8, U8, U8, U8, t, v]);
    LongestStruct([U8, U8, U8, U8, t, v]);
    LongestStruct([U8, U8, U8, t, v]);
    LongestFour(U8, U8, t, v);
  }

  /** The length of a response fits the two bytes in front of it. */
  lemma ResponsesAreShort(v: Value)
    requires Encodable(Response(), v)
    ensures |Encode(Response(), v)| <= 5112
  {
    LongestStreamResponse();
    LongestData();
    LongestShort();
    LongestStatusResponse();
    hide Longest, Struct, OneOf, Encode, Encodable;
    assert AllWithin(Messages.Responses(), 5111);
    LongestOneOf(Messages.Responses(), 5111);
    LongestChoice(OneOf(Messages.Responses()));
    NoneIsLonger(Response(), v);
  }

  // ---- what the badge sends ----

  /** A response as the badge sends it: its length in two bytes, high byte first, and the message. */
  function ResponseFrame(v: Value): (r: seq<byte>)
    requires Encodable(Response(), v)
    ensures |r| >= 2
  {
    var message := Encode(Response(), v);
    Encode16(|message|) + message
  }

  /** Its bytes: the length of the message, high byte first, and the message. */
  lemma FrameBytes(v: Value)
    requires Encodable(Response(), v)
    ensures var message := Encode(Response(), v); U16At(ResponseFrame(v), 0, |message|) && ResponseFrame(v)[2..] == message
  {
    hide Encode, Encodable, Response;
    ResponsesAreShort(v);
    Decode16Encode16(|Encode(Response(), v)|);
  }

  predicate AllResponses(vs: seq<Value>) { forall i :: 0 <= i < |vs| ==> WellFormed(Response(), vs[i]) }

  function Stream(vs: seq<Value>): seq<byte>
    requires AllResponses(vs)
  {
    hide Encodable, Exact, Response;
    if vs == [] then [] else ResponseFrame(vs[0]) + Stream(vs[1..])
  }

  lemma {:induction false} StreamSnoc(vs: seq<Value>, v: Value)
    requires AllResponses(vs) && WellFormed(Response(), v)
    ensures AllResponses(vs + [v]) && Stream(vs + [v]) == Stream(vs) + ResponseFrame(v)
    decreases |vs|
  {
    hide Encodable, Exact, ResponseFrame, Response;
    if vs == [] {
      assert [v][1..] == [] && vs + [v] == [v];
    } else {
      assert (vs + [v])[1..] == vs[1..] + [v] && (vs + [v])[0] == vs[0];
      StreamSnoc(vs[1..], v);
    }
  }

  // ---- what the hub makes of it ----

  datatype Reception = Silence | Garbled | Heard(value: Value, rest: seq<byte>)

  /** `receive_response`: two bytes of length, and as many bytes of message. */
  function ReceiveResponse(b: seq<byte>): Reception {
    if |b| < 2 then Silence
    else
      var n := Decode16(b[..2]);
      if |b| < 2 + n then Silence
      else match Decode(Response(), b[2..2 + n])
        case Failed => Garbled
        case Decoded(v, _) => Heard(v, b[2 + n..])
  }

  /** All the responses in a row, until more bytes are needed. */
  function HearAll(b: seq<byte>): seq<Value>
    decreases |b|
  {
    hide Decode, Response;
    match ReceiveResponse(b)
    case Heard(v, rest) => if |rest| < |b| then [v] + HearAll(rest) else []
    case _ => []
  }

  /** How many of the responses lie in the first `n` bytes of the stream as a whole. */
  function WholeOnes(vs: seq<Value>, n: nat): (k: nat)
    requires AllResponses(vs)
    ensures k <= |vs|
  {
    hide Encodable, Exact, Response;
    if vs == [] || n < |ResponseFrame(vs[0])| then 0 else 1 + WholeOnes(vs[1..], n - |ResponseFrame(vs[0])|)
  }

  predicate Prefix(b: seq<byte>, s: seq<byte>) { |b| <= |s| && s[..|b|] == b }

  /** The hub waits for the whole of a response, and then decodes it, whatever follows. */
  lemma HearsFirst(v: Value, tail: seq<byte>, b: seq<byte>)
    requires WellFormed(Response(), v) && Prefix(b, ResponseFrame(v) + tail)
    ensures |b| < |ResponseFrame(v)| ==> ReceiveResponse(b) == Silence
    ensures |b| >= |ResponseFrame(v)| ==>
              ReceiveResponse(b) == Heard(v, b[|ResponseFrame(v)|..]) && Prefix(b[|ResponseFrame(v)|..], tail)
  {
    hide Decode, Encode, Response, Encodable, Exact;
    ResponsesAreShort(v);
    var message := Encode(Response(), v);
    var n := |message|;
    Decode16Encode16(n);
    var whole := ResponseFrame(v) + tail;
    assert whole == Encode16(n) + message + tail;
    if |b| >= 2 {
      assert b[..2] == whole[..2] == Encode16(n);
      if |b| >= 2 + n {
        assert b[2..2 + n] == whole[2..2 + n] == message;
        RoundTrip(Response(), v, []);
        assert message + [] == message;
        assert b[2 + n..] == whole[2 + n..|b|] && whole[2 + n..] == tail;
      }
    }
  }

  /** Of a stream that has arrived in part the hub hears exactly the responses that are whole, and nothing else. */
  lemma {:induction false} HearsWholeOnes(vs: seq<Value>, b: seq<byte>)
    requires AllResponses(vs) && Prefix(b, Stream(vs))
    ensures HearAll(b) == vs[..WholeOnes(vs, |b|)]
    decreases |vs|
  {
    hide Encodable, Exact, ResponseFrame, Response, ReceiveResponse;
    if vs == [] {
      NothingToHear();
    } else {
      HearsFirst(vs[0], Stream(vs[1..]), b);
      if |b| >= |ResponseFrame(vs[0])| {
        HearsWholeOnes(vs[1..], b[|ResponseFrame(vs[0])|..]);
      }
    }
  }

  lemma NothingToHear()
    ensures ReceiveResponse([]) == Silence
  {
  }

  // ---- through the transmit queue ----

  ghost predicate IsFrame(data: seq<byte>) {
    exists v :: WellFormed(Response(), v) && data == ResponseFrame(v)
  }

  /** Whatever is handed to `sender_transmit` is a framed response. */
  ghost predicate CallsAreResponses(es: seq<Sender.Event>) {
    forall i :: 0 <= i < |es| && es[i].Call? ==> IsFrame(es[i].data)
  }

  /** A call in progress has a framed response in its hands. */
  ghost predicate InHand(s: Sender.State) {
    (s.pc.Waiting? || s.pc.Writing? ==> IsFrame(s.pc.data))
  }

  ghost predicate IsStream(b: seq<byte>, vs: seq<Value>) { AllResponses(vs) && b == Stream(vs) }

  lemma OneMoreFrame(b: seq<byte>, vs: seq<Value>, data: seq<byte>) returns (vs': seq<Value>)
    requires IsStream(b, vs) && IsFrame(data)
    ensures IsStream(b + data, vs')
  {
    hide Encodable, Exact, ResponseFrame, Response;
    var v :| WellFormed(Response(), v) && data == ResponseFrame(v);
    StreamSnoc(vs, v);
    vs' := vs + [v];
  }

  lemma NextIsStream(s: Sender.State, e: Sender.Event, vs: seq<Value>) returns (vs': seq<Value>)
    requires Sender.Inv(s) && InHand(s) && IsStream(s.accepted, vs) && (e.Call? ==> IsFrame(e.data))
    ensures InHand(Sender.Next(s, e)) && IsStream(Sender.Next(s, e).accepted, vs')
  {
    hide IsFrame, Sender.Joined, AllResponses, Stream, Sender.ArePackets;
    NoStream();
    vs' := vs;
    if e.Proceed? && s.pc.Writing? && Sender.Space(s) > 0 {
      vs' := OneMoreFrame(s.accepted, vs, s.pc.data);
    } else if e.Hardware? && !e.what.Tick? {
      vs' := [];
    }
  }

  lemma NoStream()
    ensures IsStream([], [])
  {
  }

  /** Whatever interrupts the calls: what has been accepted since the last reset is a stream of whole responses. */
  lemma {:induction false} AcceptedIsStream(es: seq<Sender.Event>) returns (vs: seq<Value>)
    requires CallsAreResponses(es)
    ensures var s := Sender.Run(Sender.INITIAL, es); Sender.Inv(s) && InHand(s) && IsStream(s.accepted, vs)
    decreases |es|
  {
    hide IsFrame, IsStream, Sender.Next;
    Sender.RunKeeps(Sender.INITIAL, es);
    if es == [] {
      NoStream();
      vs := [];
    } else {
      var n := |es| - 1;
      var before := AcceptedIsStream(es[..n]);
      vs := NextIsStream(Sender.Run(Sender.INITIAL, es[..n]), es[n], before);
    }
  }

  /**
   * At every moment of every run, whatever interleaves, whatever packets fail, the hub has heard the first ones of the
   * responses accepted since the last reset, in order: exactly those whose bytes have all been sent.
   */
  lemma ResponsesArrive(es: seq<Sender.Event>) returns (vs: seq<Value>)
    requires CallsAreResponses(es)
    ensures var s := Sender.Run(Sender.INITIAL, es);
      && AllResponses(vs) && s.accepted == Stream(vs)
      && HearAll(Sender.Joined(s.packets)) == vs[..WholeOnes(vs, |Sender.Joined(s.packets)|)]
  {
    vs := AcceptedIsStream(es);
    var s := Sender.Run(Sender.INITIAL, es);
    Sender.NothingLost(es);
    hide Sender.Run, Sender.Joined, Sender.Inv, Stream, AllResponses, HearAll, WholeOnes;
    assert s.accepted[..|Sender.Joined(s.packets)|] == Sender.Joined(s.packets);
    HearsWholeOnes(vs, Sender.Joined(s.packets));
  }

  /** With enough ticks that get through it hears them all. */
  lemma AllResponsesArrive(es: seq<Sender.Event>, n: nat) returns (vs: seq<Value>)
    requires CallsAreResponses(es)
    requires Sender.Run(Sender.INITIAL, es).pc.Idle? && |Sender.Run(Sender.INITIAL, es).queue| <= Sender.PACKET * n
    ensures AllResponses(vs) && Sender.Run(Sender.INITIAL, es).accepted == Stream(vs)
    ensures HearAll(Sender.Joined(Sender.Run(Sender.INITIAL, es + Sender.Ticks(n + 1)).packets)) == vs
  {
    vs := AcceptedIsStream(es);
    Sender.QueuedIsSent(es, n);
    hide Sender.Run, Sender.Joined, Sender.Inv, Stream, AllResponses, HearAll, WholeOnes;
    HearsWholeOnes(vs, Stream(vs));
    AllAreWhole(vs);
  }

  lemma {:induction false} AllAreWhole(vs: seq<Value>)
    requires AllResponses(vs)
    ensures vs[..WholeOnes(vs, |Stream(vs)|)] == vs
    decreases |vs|
  {
    hide Encodable, Exact, ResponseFrame, Response;
    if vs != [] {
      AllAreWhole(vs[1..]);
    }
  }
}
