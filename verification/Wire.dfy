/** From the hub's requests to the badge's request handler: encoded, framed, packed anyhow, cut and decoded again. */
module Wire {
  import opened Bytes
  import opened Codec
  import opened Messages
  import opened Framing

  /** A request as the hub sends it: its length in two bytes, and the message. */
  function Framed(v: Value): (r: seq<byte>)
    requires Encodable(Request(), v)
    ensures 2 <= |r| <= 20
  {
    RequestsAreShort(v);
    var message := Encode(Request(), v);
    Encode16(|message|) + message
  }

  /** Its bytes: the length of the message, high byte first, and the message. */
  lemma FramedBytes(v: Value)
    requires Encodable(Request(), v)
    ensures var message := Encode(Request(), v); U16At(Framed(v), 0, |message|) && Framed(v)[2..] == message
  {
    hide Encode, Encodable, Request;
    RequestsAreShort(v);
    Decode16Encode16(|Encode(Request(), v)|);
  }

  predicate AllRequests(vs: seq<Value>) { forall i :: 0 <= i < |vs| ==> WellFormed(Request(), vs[i]) }

  function Sent(vs: seq<Value>): seq<byte>
    requires AllRequests(vs)
  {
    if vs == [] then [] else Framed(vs[0]) + Sent(vs[1..])
  }

  /** The frames decode to the requests, one by one. */
  predicate DecodeTo(frames: seq<Frame>, vs: seq<Value>) {
    && |frames| == |vs|
    && forall i :: 0 <= i < |vs| ==> Decode(Request(), frames[i].payload) == Decoded(vs[i], [])
  }

  /** The first frame of a stream that begins with a framed request carries this request. */
  lemma FirstIsRequest(stream: seq<Tagged>, v: Value, rest: seq<byte>)
    requires WellFormed(Request(), v) && ValuesOf(stream) == Framed(v) + rest
    ensures Complete(stream) && ValuesOf(stream[FrameLen(stream)..]) == rest
    ensures Decode(Request(), FirstFrame(stream).payload) == Decoded(v, [])
  {
    hide Decode, Encode, Request, Encodable, Exact;
    RequestsAreShort(v);
    var message := Encode(Request(), v);
    var n := |message|;
    assert ValuesOf(stream)[..2] == Encode16(n);
    Decode16Encode16(n);
    assert |stream| == |ValuesOf(stream)|;
    assert FrameLen(stream) == 2 + n;
    assert ValuesOf(stream[2..2 + n]) == ValuesOf(stream)[2..2 + n] == message;
    assert ValuesOf(stream[2 + n..]) == ValuesOf(stream)[2 + n..] == rest;
    RoundTrip(Request(), v, []);
    assert message + [] == message;
  }

  lemma {:induction false} SentFrames(stream: seq<Tagged>, vs: seq<Value>)
    requires AllRequests(vs) && ValuesOf(stream) == Sent(vs)
    ensures DecodeTo(FramesOf(stream), vs)
    decreases |vs|
  {
    hide Decode, Request, WellFormed, Framed, Complete, FirstFrame, FrameLen;
    if vs == [] {
      assert |stream| == 0;
      EmptyIsIncomplete(stream);
      NoFrames(stream);
    } else {
      FirstIsRequest(stream, vs[0], Sent(vs[1..]));
      SentFrames(stream[FrameLen(stream)..], vs[1..]);
    }
  }

  lemma EmptyIsIncomplete(stream: seq<Tagged>)
    requires |stream| == 0
    ensures !Complete(stream)
  {
  }

  /**
   * However the bytes of any requests are packed, as long as no queue overflows: once the handler has nothing more to do,
   * what it has handed on decodes to exactly these requests, in order.
   */
  lemma RequestsArrive(es: seq<Event>, vs: seq<Value>)
    requires AllRequests(vs) && NoOverflow(INITIAL, es)
    requires AtRest(Run(INITIAL, es)) && ValuesOf(Run(INITIAL, es).stream) == Sent(vs)
    ensures DecodeTo(Run(INITIAL, es).frames, vs)
  {
    hide *;
    InitialInv();
    RunKeeps(INITIAL, es);
    AtRestAllHandedOn(Run(INITIAL, es));
    SentFrames(Run(INITIAL, es).stream, vs);
  }
}
