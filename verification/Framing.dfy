/** Cutting the received byte stream into requests, whatever the packets it comes in (request_handler_lib_02v1.c, sender_lib.c). */
module Framing {
  import opened Bytes

  /** Bytes of the receive queue, and places of the notification queue: 256 bytes, of which a notification takes 24. */
  const RX_SIZE := 128
  const NOTES := 10

  /** What is remembered of one packet: how many of its bytes are left, and when it came. */
  datatype Note = Note(length: u16, stamp: nat)

  /** A received byte, with the time its packet came. */
  datatype Tagged = Tagged(value: byte, stamp: nat)

  /** A request: its bytes, and the time the packet with its first byte came. */
  datatype Frame = Frame(payload: seq<byte>, stamp: nat)

  // ---- the stream and its frames ----

  function ValuesOf(s: seq<Tagged>): (r: seq<byte>)
    ensures |r| == |s| && forall i :: 0 <= i < |s| ==> r[i] == s[i].value
  {
    seq(|s|, i requires 0 <= i < |s| => s[i].value)
  }

  function StampsOf(s: seq<Tagged>): (r: seq<nat>)
    ensures |r| == |s| && forall i :: 0 <= i < |s| ==> r[i] == s[i].stamp
  {
    seq(|s|, i requires 0 <= i < |s| => s[i].stamp)
  }

  function Tag(data: seq<byte>, stamp: nat): (r: seq<Tagged>)
    ensures |r| == |data| && forall i :: 0 <= i < |data| ==> r[i] == Tagged(data[i], stamp)
  {
    seq(|data|, i requires 0 <= i < |data| => Tagged(data[i], stamp))
  }

  /** The length a header announces. */
  function Announced(header: seq<byte>): u16
    requires |header| >= 2
  {
    Decode16(header[..2])
  }

  /** High byte first. */
  lemma AnnouncedBytes(header: seq<byte>)
    requires |header| >= 2
    ensures U16At(header, 0, Announced(header))
  {
  }

  /** The stream begins with a whole frame. */
  predicate Complete(stream: seq<Tagged>) {
    |stream| >= 2 && |stream| >= 2 + Announced(ValuesOf(stream))
  }

  function FrameLen(stream: seq<Tagged>): (n: nat)
    requires Complete(stream)
    ensures 2 <= n <= |stream|
  {
    2 + Announced(ValuesOf(stream))
  }

  function FirstFrame(stream: seq<Tagged>): Frame
    requires Complete(stream)
  {
    Frame(ValuesOf(stream[2..FrameLen(stream)]), stream[0].stamp)
  }

  /** The frames of a stream: the whole ones, from the front. */
  function FramesOf(stream: seq<Tagged>): seq<Frame>
    decreases |stream|
  {
    if !Complete(stream) then [] else [FirstFrame(stream)] + FramesOf(stream[FrameLen(stream)..])
  }

  /** Frames and nothing else. */
  predicate AllFrames(stream: seq<Tagged>)
    decreases |stream|
  {
    stream == [] || (Complete(stream) && AllFrames(stream[FrameLen(stream)..]))
  }

  lemma CompletePrefix(a: seq<Tagged>, b: seq<Tagged>)
    requires Complete(a)
    ensures Complete(a + b) && FrameLen(a + b) == FrameLen(a) && FirstFrame(a + b) == FirstFrame(a)
    ensures (a + b)[FrameLen(a)..] == a[FrameLen(a)..] + b
  {
    assert ValuesOf(a + b)[..2] == ValuesOf(a)[..2];
    assert (a + b)[2..FrameLen(a)] == a[2..FrameLen(a)];
  }

  lemma FramesUnfold(s: seq<Tagged>)
    ensures FramesOf(s) == if Complete(s) then [FirstFrame(s)] + FramesOf(s[FrameLen(s)..]) else []
  {
  }

  lemma AllFramesUnfold(s: seq<Tagged>)
    ensures AllFrames(s) <==> s == [] || (Complete(s) && AllFrames(s[FrameLen(s)..]))
  {
  }

  /** Behind whole frames the frames of the rest follow. */
  lemma {:induction false} FramesInTwo(a: seq<Tagged>, b: seq<Tagged>)
    requires AllFrames(a)
    ensures FramesOf(a + b) == FramesOf(a) + FramesOf(b)
    decreases |a|
  {
    hide *;
    AllFramesUnfold(a);
    FramesUnfold(a);
    FramesUnfold(a + b);
    if a == [] {
      assert a + b == b;
      EmptyHasNone();
    } else {
      CompletePrefix(a, b);
      var rest := a[FrameLen(a)..];
      FramesInTwo(rest, b);
      assert [FirstFrame(a)] + (FramesOf(rest) + FramesOf(b)) == [FirstFrame(a)] + FramesOf(rest) + FramesOf(b);
    }
  }

  lemma EmptyHasNone()
    ensures FramesOf([]) == []
  {
  }

  lemma {:induction false} AllFramesInTwo(a: seq<Tagged>, b: seq<Tagged>)
    requires AllFrames(a) && AllFrames(b)
    ensures AllFrames(a + b)
    decreases |a|
  {
    hide *;
    AllFramesUnfold(a);
    AllFramesUnfold(a + b);
    if a == [] {
      assert a + b == b;
    } else {
      CompletePrefix(a, b);
      AllFramesInTwo(a[FrameLen(a)..], b);
    }
  }

  lemma OneFrame(f: seq<Tagged>)
    requires Complete(f) && FrameLen(f) == |f|
    ensures AllFrames(f) && FramesOf(f) == [FirstFrame(f)]
  {
    hide Complete, FirstFrame, FrameLen;
    assert f[|f|..] == [];
    NoFrames([]);
  }

  lemma NoFrames(s: seq<Tagged>)
    requires !Complete(s)
    ensures FramesOf(s) == []
  {
  }

  // ---- the notifications ----

  /** The times of the bytes that the notifications stand for. */
  function Expand(notes: seq<Note>): seq<nat> {
    if notes == [] then [] else seq(notes[0].length, i => notes[0].stamp) + Expand(notes[1..])
  }

  predicate NonEmpty(notes: seq<Note>) {
    forall i :: 0 <= i < |notes| ==> notes[i].length > 0
  }

  datatype Consumed = Missing | Left(notes: seq<Note>)

  /** Taking the notifications of `n` bytes from the queue. */
  function Consume(notes: seq<Note>, n: nat): Consumed {
    if n == 0 then Left(notes)
    else if notes == [] then Missing
    else if notes[0].length <= n then Consume(notes[1..], n - notes[0].length)
    else Left([notes[0].(length := notes[0].length - n)] + notes[1..])
  }

  /** What is left stands for the bytes that are left; nothing is missing if there are as many bytes. */
  lemma {:induction false} ConsumeDrops(notes: seq<Note>, n: nat)
    requires NonEmpty(notes)
    ensures Consume(notes, n).Left? <==> n <= |Expand(notes)|
    ensures n <= |Expand(notes)| ==>
              Expand(Consume(notes, n).notes) == Expand(notes)[n..] && NonEmpty(Consume(notes, n).notes)
    ensures Consume(notes, n).Left? ==> |Consume(notes, n).notes| <= |notes|
    decreases |notes|
  {
    if n > 0 && notes != [] {
      var k := notes[0].length;
      var first := seq(k, i => notes[0].stamp);
      assert Expand(notes) == first + Expand(notes[1..]);
      if k <= n {
        ConsumeDrops(notes[1..], n - k);
        assert n <= |Expand(notes)| ==> Expand(notes)[n..] == Expand(notes[1..])[n - k..];
      } else {
        var left := [notes[0].(length := k - n)] + notes[1..];
        assert left[1..] == notes[1..];
        assert first[n..] == seq(k - n, i => notes[0].stamp);
        assert Expand(notes)[n..] == first[n..] + Expand(notes[1..]);
      }
    }
  }

  lemma {:induction false} ExpandSnoc(notes: seq<Note>, note: Note)
    ensures Expand(notes + [note]) == Expand(notes) + seq(note.length, i => note.stamp)
    decreases |notes|
  {
    if notes == [] {
      assert [] + [note] == [note] && [note][1..] == [];
    } else {
      assert (notes + [note])[1..] == notes[1..] + [note];
      ExpandSnoc(notes[1..], note);
    }
  }

  /** A packet that comes while notifications are being taken changes nothing about which ones are taken. */
  lemma {:induction false} ConsumeIgnoresArrival(notes: seq<Note>, n: nat, note: Note)
    requires NonEmpty(notes) && n <= |Expand(notes)|
    ensures Consume(notes, n).Left? && Consume(notes + [note], n) == Left(Consume(notes, n).notes + [note])
    decreases |notes|
  {
    ConsumeDrops(notes, n);
    if n > 0 {
      assert (notes + [note])[1..] == notes[1..] + [note];
      if notes[0].length <= n {
        ConsumeIgnoresArrival(notes[1..], n - notes[0].length, note);
      }
    }
  }

  // ---- the machine ----

  /** Where the main context is inside `process_receive_notification`. */
  datatype Phase = Ready | AwaitHeader(stamp: nat) | AwaitBody(stamp: nat, length: u16)

  /**
   * The two queues and the main context; and what has been received since the last flush, how much of it belongs to
   * requests already handed on, and these requests.
   */
  datatype State = State(
    rx: seq<byte>, notes: seq<Note>, phase: Phase, stream: seq<Tagged>, start: nat, frames: seq<Frame>)

  datatype Event = Arrive(data: seq<byte>, stamp: nat) | Proceed(decodes: bool) | TimeOut

  const INITIAL := State([], [], Ready, [], 0, [])

  /** `on_receive_callback` and `receive_notification_handler`. */
  function Arrived(s: State, data: seq<byte>, stamp: nat): State {
    var room := if |s.rx| <= RX_SIZE then RX_SIZE - |s.rx| else 0;
    var written := if |data| <= room then data else data[..room];
    s.(rx := s.rx + written,
       notes := if |s.notes| < NOTES && |data| < 0x1_0000 then s.notes + [Note(|data|, stamp)] else s.notes,
       stream := s.stream + Tag(data, stamp))
  }

  /** `finish_error`: both queues are flushed. */
  function Failed(s: State): State { INITIAL }

  function Proceeded(s: State, decodes: bool): State {
    match s.phase
    case Ready => if s.notes == [] then s else s.(phase := AwaitHeader(s.notes[0].stamp))
    case AwaitHeader(stamp) =>
      if |s.rx| < 2 then s else s.(rx := s.rx[2..], phase := AwaitBody(stamp, Announced(s.rx)))
    case AwaitBody(stamp, length) =>
      if |s.rx| < length then s
      else
        match Consume(s.notes, (length + 2) % 0x1_0000)
        case Missing => Failed(s)
        case Left(notes) =>
          if !decodes then Failed(s)
          else State(s.rx[length..], notes, Ready, s.stream, s.start + 2 + length,
                     s.frames + [Frame(s.rx[..length], stamp)])
  }

  /** The main context waits for bytes that are not there. */
  predicate Waits(s: State) {
    match s.phase
    case Ready => false
    case AwaitHeader(_) => |s.rx| < 2
    case AwaitBody(_, length) => |s.rx| < length
  }

  function Next(s: State, e: Event): State {
    match e
    case Arrive(data, stamp) => Arrived(s, data, stamp)
    case Proceed(decodes) => Proceeded(s, decodes)
    case TimeOut => if Waits(s) then Failed(s) else s
  }

  function Run(s: State, es: seq<Event>): State
    decreases |es|
  {
    if es == [] then s else Next(Run(s, es[..|es| - 1]), es[|es| - 1])
  }

  /** The packet has bytes, and both queues have room for it. */
  predicate Fits(s: State, e: Event) {
    e.Arrive? ==> e.data != [] && |e.data| <= RX_SIZE - |s.rx| && |s.notes| < NOTES
  }

  predicate NoOverflow(s: State, es: seq<Event>)
    decreases |es|
  {
    es != [] ==> NoOverflow(s, es[..|es| - 1]) && Fits(Run(s, es[..|es| - 1]), es[|es| - 1])
  }

  // ---- what every step keeps ----

  /** How many bytes have been taken out of the receive queue. */
  function Taken(s: State): nat { s.start + if s.phase.AwaitBody? then 2 else 0 }

  /** The queues against the stream: the bytes not taken yet, and the times of the bytes not handed on yet. */
  predicate InStep(s: State) {
    && Taken(s) <= |s.stream| && |s.rx| <= RX_SIZE && NonEmpty(s.notes)
    && s.rx == ValuesOf(s.stream[Taken(s)..])
    && Expand(s.notes) == StampsOf(s.stream[s.start..])
  }

  /** The main context against the stream: it is in the frame that begins at `start`. */
  predicate InFrame(s: State) {
    && (!s.phase.Ready? ==> s.start < |s.stream| && s.phase.stamp == s.stream[s.start].stamp)
    && (s.phase.AwaitBody? ==> s.start + 2 <= |s.stream| && s.phase.length == Announced(ValuesOf(s.stream[s.start..])))
  }

  /** What has been handed on is the frames of the stream up to `start`. */
  predicate HandedOn(s: State) {
    s.start <= |s.stream| && AllFrames(s.stream[..s.start]) && s.frames == FramesOf(s.stream[..s.start])
  }

  predicate Inv(s: State) { InStep(s) && InFrame(s) && HandedOn(s) }

  lemma InitialInv()
    ensures Inv(INITIAL)
  {
  }

  lemma ValuesJoin(a: seq<Tagged>, b: seq<Tagged>)
    ensures ValuesOf(a + b) == ValuesOf(a) + ValuesOf(b) && StampsOf(a + b) == StampsOf(a) + StampsOf(b)
  {
  }

  lemma ArriveKeeps(s: State, data: seq<byte>, stamp: nat)
    requires Inv(s) && Fits(s, Arrive(data, stamp))
    ensures Inv(Arrived(s, data, stamp))
  {
    hide AllFrames, FramesOf, Announced, Expand;
    var more := Tag(data, stamp);
    var stream' := s.stream + more;
    assert stream'[Taken(s)..] == s.stream[Taken(s)..] + more;
    assert stream'[s.start..] == s.stream[s.start..] + more;
    assert stream'[..s.start] == s.stream[..s.start];
    assert ValuesOf(more) == data && StampsOf(more) == seq(|data|, i => stamp);
    ValuesJoin(s.stream[Taken(s)..], more);
    ValuesJoin(s.stream[s.start..], more);
    ExpandSnoc(s.notes, Note(|data|, stamp));
    if s.phase.AwaitBody? {
      SameHeader(s.stream[s.start..], more);
    }
  }

  lemma SameHeader(a: seq<Tagged>, b: seq<Tagged>)
    requires |a| >= 2
    ensures Announced(ValuesOf(a + b)) == Announced(ValuesOf(a))
  {
    assert ValuesOf(a + b)[..2] == ValuesOf(a)[..2];
  }

  lemma BeginKeeps(s: State)
    requires Inv(s) && s.phase.Ready? && s.notes != []
    ensures Inv(Proceeded(s, true))
  {
    hide AllFrames, FramesOf, Announced;
    assert Expand(s.notes)[0] == s.notes[0].stamp;
    assert StampsOf(s.stream[s.start..])[0] == s.stream[s.start].stamp;
  }

  lemma HeaderKeeps(s: State)
    requires Inv(s) && s.phase.AwaitHeader? && |s.rx| >= 2
    ensures Inv(Proceeded(s, true))
  {
    hide AllFrames, FramesOf, Announced, Expand;
    assert s.stream[s.start..][2..] == s.stream[s.start + 2..];
    assert ValuesOf(s.stream[s.start..])[2..] == ValuesOf(s.stream[s.start + 2..]);
  }

  /** The bytes taken for a body complete the frame that begins at `start`. */
  lemma BodyIsFrame(s: State)
    requires Inv(s) && s.phase.AwaitBody? && |s.rx| >= s.phase.length
    ensures s.start + 2 + s.phase.length <= |s.stream|
    ensures var f := s.stream[s.start..s.start + 2 + s.phase.length];
      Complete(f) && FrameLen(f) == |f| && FirstFrame(f) == Frame(s.rx[..s.phase.length], s.phase.stamp)
  {
    hide AllFrames, FramesOf, Expand;
    var n := s.phase.length;
    var rest := s.stream[s.start..];
    var f := s.stream[s.start..s.start + 2 + n];
    assert f == rest[..2 + n];
    assert ValuesOf(f)[..2] == ValuesOf(rest)[..2];
    MiddleOf(s.stream, s.start, n);
  }

  lemma MiddleOf(stream: seq<Tagged>, start: nat, n: nat)
    requires start + 2 + n <= |stream|
    ensures ValuesOf(stream[start..start + 2 + n][2..2 + n]) == ValuesOf(stream[start + 2..])[..n]
  {
    var a, b := stream[start..start + 2 + n][2..2 + n], stream[start + 2..];
    assert |b| >= n && |a| == n;
    forall i | 0 <= i < n ensures a[i] == b[i] {
      assert a[i] == stream[start + 2 + i] && b[i] == stream[start + 2 + i];
    }
    assert ValuesOf(a) == ValuesOf(b)[..n];
  }

  /** What is left of the queues behind the frame. */
  lemma BodyLeavesQueues(s: State)
    requires Inv(s) && s.phase.AwaitBody? && |s.rx| >= s.phase.length
    ensures s.phase.length + 2 < 0x1_0000
    ensures var n, c := s.phase.length, Consume(s.notes, (s.phase.length + 2) % 0x1_0000);
            var behind := s.stream[s.start + 2 + n..];
      && s.start + 2 + n <= |s.stream| && c.Left? && NonEmpty(c.notes)
      && s.rx[n..] == ValuesOf(behind) && Expand(c.notes) == StampsOf(behind)
  {
    hide *;
    var n: nat := s.phase.length;
    BodyQueues(s);
    StampsFrom(s.stream, s.start);
    StampsFrom(s.stream, s.start + 2);
    assert (n + 2) % 0x1_0000 == n + 2;
    ConsumeDrops(s.notes, n + 2);
    DropTwice(s.stream, s.start, n + 2);
    DropTwice(s.stream, s.start + 2, n);
  }

  /** The queues while a body is awaited. */
  lemma BodyQueues(s: State)
    requires Inv(s) && s.phase.AwaitBody?
    ensures s.start + 2 <= |s.stream| && |s.rx| + 2 < 0x1_0000 && NonEmpty(s.notes)
    ensures s.rx == ValuesOf(s.stream[s.start + 2..]) && Expand(s.notes) == StampsOf(s.stream[s.start..])
  {
    hide AllFrames, FramesOf, Announced, Expand, ValuesOf, StampsOf, NonEmpty;
  }

  lemma StampsFrom(s: seq<Tagged>, i: nat)
    requires i <= |s|
    ensures |StampsOf(s[i..])| == |s| - i && |ValuesOf(s[i..])| == |s| - i
  {
  }

  lemma DropTwice(s: seq<Tagged>, i: nat, n: nat)
    requires i + n <= |s|
    ensures ValuesOf(s[i..])[n..] == ValuesOf(s[i + n..]) && StampsOf(s[i..])[n..] == StampsOf(s[i + n..])
  {
    assert s[i..][n..] == s[i + n..];
  }

  /** What is handed on with the frame. */
  lemma BodyHandsOn(s: State)
    requires Inv(s) && s.phase.AwaitBody? && |s.rx| >= s.phase.length
    ensures var end := s.start + 2 + s.phase.length;
      && end <= |s.stream| && AllFrames(s.stream[..end])
      && FramesOf(s.stream[..end]) == s.frames + [Frame(s.rx[..s.phase.length], s.phase.stamp)]
  {
    hide *;
    BodyIsFrame(s);
    HandedOnSoFar(s);
    var end := s.start + 2 + s.phase.length;
    var f, done := s.stream[s.start..end], s.stream[..s.start];
    assert s.stream[..end] == done + f;
    OneFrame(f);
    AllFramesInTwo(done, f);
    FramesInTwo(done, f);
  }

  lemma HandedOnSoFar(s: State)
    requires Inv(s)
    ensures s.start <= |s.stream| && AllFrames(s.stream[..s.start]) && s.frames == FramesOf(s.stream[..s.start])
  {
    hide AllFrames, FramesOf;
  }

  lemma BodyKeeps(s: State)
    requires Inv(s) && s.phase.AwaitBody? && |s.rx| >= s.phase.length
    ensures Inv(Proceeded(s, true)) && Proceeded(s, true).phase == Ready
    ensures Proceeded(s, true).frames == s.frames + [Frame(s.rx[..s.phase.length], s.phase.stamp)]
  {
    hide AllFrames, FramesOf, Announced, Expand, Consume;
    BodyLeavesQueues(s);
    BodyHandsOn(s);
  }

  lemma NextKeeps(s: State, e: Event)
    requires Inv(s) && Fits(s, e)
    ensures Inv(Next(s, e))
  {
    InitialInv();
    hide Inv, Arrived, Fits, Consume;
    match e {
      case Arrive(data, stamp) => ArriveKeeps(s, data, stamp);
      case TimeOut =>
      case Proceed(decodes) =>
        match s.phase {
          case Ready => if s.notes != [] { BeginKeeps(s); }
          case AwaitHeader(_) => if |s.rx| >= 2 { HeaderKeeps(s); }
          case AwaitBody(_, n) => if |s.rx| >= n { BodyKeeps(s); }
        }
    }
  }

  lemma {:induction false} RunKeeps(s: State, es: seq<Event>)
    requires Inv(s) && NoOverflow(s, es)
    ensures Inv(Run(s, es))
    decreases |es|
  {
    hide Inv, Next, Fits;
    if es != [] {
      RunKeeps(s, es[..|es| - 1]);
      NextKeeps(Run(s, es[..|es| - 1]), es[|es| - 1]);
    }
  }

  // ---- the promises ----

  /** In every run without overflow, the requests handed on are frames of the stream, the first ones, in order. */
  lemma RequestsAreFrames(es: seq<Event>)
    requires NoOverflow(INITIAL, es)
    ensures var s := Run(INITIAL, es);
      && s.start <= |s.stream| && s.frames == FramesOf(s.stream[..s.start])
      && FramesOf(s.stream) == s.frames + FramesOf(s.stream[s.start..])
  {
    InitialInv();
    RunKeeps(INITIAL, es);
    var s := Run(INITIAL, es);
    FramesInTwo(s.stream[..s.start], s.stream[s.start..]);
    assert s.stream[..s.start] + s.stream[s.start..] == s.stream;
  }

  lemma {:induction false} ExpandCounts(notes: seq<Note>)
    ensures |Expand(notes)| == SumOf(notes)
    decreases |notes|
  {
    if notes != [] {
      ExpandCounts(notes[1..]);
    }
  }

  function SumOf(notes: seq<Note>): nat { if notes == [] then 0 else notes[0].length + SumOf(notes[1..]) }

  /** Between requests, the lengths of the notifications add up to the bytes in the receive queue. */
  lemma LengthsAddUp(es: seq<Event>)
    requires NoOverflow(INITIAL, es) && Run(INITIAL, es).phase.Ready?
    ensures SumOf(Run(INITIAL, es).notes) == |Run(INITIAL, es).rx|
  {
    InitialInv();
    RunKeeps(INITIAL, es);
    hide Run, NoOverflow, FramesOf, AllFrames, SumOf;
    ExpandCounts(Run(INITIAL, es).notes);
  }

  /** The main context has nothing more to do: no notification, or not enough bytes. */
  predicate AtRest(s: State) { (s.phase.Ready? && s.notes == []) || Waits(s) }

  /** At rest, what has not been handed on does not begin with a whole frame. */
  lemma RestIsIncomplete(s: State)
    requires Inv(s) && AtRest(s)
    ensures s.start <= |s.stream| && !Complete(s.stream[s.start..])
  {
    hide FramesOf, AllFrames, Announced;
    if s.phase.Ready? {
      assert Expand(s.notes) == [] && |StampsOf(s.stream[s.start..])| == 0;
    }
    hide Expand;
  }

  /** At rest, all whole frames received have been handed on. */
  lemma AtRestAllHandedOn(s: State)
    requires Inv(s) && AtRest(s)
    ensures s.frames == FramesOf(s.stream)
  {
    hide *;
    RestIsIncomplete(s);
    HandedOnSoFar(s);
    var rest := s.stream[s.start..];
    FramesInTwo(s.stream[..s.start], rest);
    assert s.stream[..s.start] + rest == s.stream;
    NoFrames(rest);
    assert s.frames + [] == s.frames;
  }

  /** The payloads do not depend on how the bytes were packed. */
  lemma PackingDoesNotMatter(es: seq<Event>, es': seq<Event>)
    requires NoOverflow(INITIAL, es) && NoOverflow(INITIAL, es')
    requires AtRest(Run(INITIAL, es)) && AtRest(Run(INITIAL, es'))
    requires ValuesOf(Run(INITIAL, es).stream) == ValuesOf(Run(INITIAL, es').stream)
    ensures PayloadsOf(Run(INITIAL, es).frames) == PayloadsOf(Run(INITIAL, es').frames)
  {
    InitialInv();
    RunKeeps(INITIAL, es);
    RunKeeps(INITIAL, es');
    hide Run, NoOverflow, Inv, AtRest, FramesOf, PayloadsOf;
    AtRestAllHandedOn(Run(INITIAL, es));
    AtRestAllHandedOn(Run(INITIAL, es'));
    PayloadsOfValues(Run(INITIAL, es).stream, Run(INITIAL, es').stream);
  }

  function PayloadsOf(frames: seq<Frame>): (r: seq<seq<byte>>)
    ensures |r| == |frames| && forall i :: 0 <= i < |frames| ==> r[i] == frames[i].payload
  {
    seq(|frames|, i requires 0 <= i < |frames| => frames[i].payload)
  }

  lemma {:induction false} PayloadsOfValues(a: seq<Tagged>, b: seq<Tagged>)
    requires ValuesOf(a) == ValuesOf(b)
    ensures PayloadsOf(FramesOf(a)) == PayloadsOf(FramesOf(b))
    decreases |a|
  {
    assert |a| == |ValuesOf(a)| == |ValuesOf(b)| == |b|;
    hide Complete, FrameLen, FirstFrame, FramesOf, PayloadsOf, ValuesOf;
    SameValuesSameFrame(a, b);
    FramesUnfold(a);
    FramesUnfold(b);
    if Complete(a) {
      var n := FrameLen(a);
      PayloadsOfValues(a[n..], b[n..]);
      PayloadsCons(FirstFrame(a), FramesOf(a[n..]));
      PayloadsCons(FirstFrame(b), FramesOf(b[n..]));
    }
  }

  lemma SameValuesSameFrame(a: seq<Tagged>, b: seq<Tagged>)
    requires ValuesOf(a) == ValuesOf(b)
    ensures Complete(a) == Complete(b)
    ensures Complete(a) ==>
              && FrameLen(a) == FrameLen(b) && FirstFrame(a).payload == FirstFrame(b).payload
              && ValuesOf(a[FrameLen(a)..]) == ValuesOf(b[FrameLen(b)..])
  {
    assert |a| == |ValuesOf(a)| == |ValuesOf(b)| == |b|;
    if Complete(a) {
      var n := FrameLen(a);
      assert ValuesOf(a[n..]) == ValuesOf(a)[n..] && ValuesOf(b[n..]) == ValuesOf(b)[n..];
      assert ValuesOf(a[2..n]) == ValuesOf(a)[2..n] && ValuesOf(b[2..n]) == ValuesOf(b)[2..n];
    }
  }

  lemma PayloadsCons(f: Frame, fs: seq<Frame>)
    ensures PayloadsOf([f] + fs) == [f.payload] + PayloadsOf(fs)
  {
  }

  /** Packets may come too fast: then the queues take what they have room for, 128 bytes and 10 notifications, and no more. */
  lemma {:induction false} QueuesStayBounded(es: seq<Event>)
    ensures |Run(INITIAL, es).rx| <= 128 && |Run(INITIAL, es).notes| <= 10
    decreases |es|
  {
    if es != [] {
      QueuesStayBounded(es[..|es| - 1]);
      var s, e := Run(INITIAL, es[..|es| - 1]), es[|es| - 1];
      if e.Proceed? && s.phase.AwaitBody? {
        ConsumeShortens(s.notes, (s.phase.length + 2) % 0x1_0000);
      }
    }
  }

  lemma {:induction false} ConsumeShortens(notes: seq<Note>, n: nat)
    ensures Consume(notes, n).Left? ==> |Consume(notes, n).notes| <= |notes|
    decreases |notes|
  {
    if n > 0 && notes != [] && notes[0].length <= n {
      ConsumeShortens(notes[1..], n - notes[0].length);
    }
  }

  /** What they take of a packet: its first bytes, as many as there is room for, and its notification if there is a place. */
  lemma ArrivalTakes(es: seq<Event>, data: seq<byte>, stamp: nat)
    ensures var s, s' := Run(INITIAL, es), Run(INITIAL, es + [Arrive(data, stamp)]);
      && s.rx <= s'.rx <= s.rx + data && |s'.rx| == (if |s.rx| + |data| <= 128 then |s.rx| + |data| else 128)
      && s'.notes == (if |s.notes| < 10 && |data| < 0x1_0000 then s.notes + [Note(|data|, stamp)] else s.notes)
      && s'.phase == s.phase && s'.frames == s.frames && s'.start == s.start
  {
    QueuesStayBounded(es);
    RunSnoc(INITIAL, es, Arrive(data, stamp));
    hide Run;
  }

  /** A whole frame in the queue is handed on in three steps, with the time of its first byte. */
  lemma WholeFrameIsHandedOn(s: State)
    requires Inv(s) && s.phase.Ready? && Complete(s.stream[s.start..])
    ensures var t := Next(Next(Next(s, Proceed(true)), Proceed(true)), Proceed(true));
      && t.frames == s.frames + [FirstFrame(s.stream[s.start..])] && t.phase == Ready && t.stream == s.stream
  {
    var rest := s.stream[s.start..];
    assert Expand(s.notes) != [] && s.notes != [];
    var n := FrameLen(rest) - 2;
    var s1 := Proceeded(s, true);
    var s2 := Proceeded(s1, true);
    hide FramesOf, AllFrames, Expand, FirstFrame;
    BeginKeeps(s);
    assert s1.phase.AwaitHeader? && s1.rx == s.rx && s1.stream == s.stream && s1.start == s.start && s1.frames == s.frames;
    HeaderKeeps(s1);
    assert s2.phase.AwaitBody? && s2.rx == s.rx[2..] && s2.stream == s.stream && s2.start == s.start && s2.frames == s.frames;
    hide Inv, Proceeded;
    LengthOfBody(s2, n);
    BodyOfFrame(s2, n);
    BodyKeeps(s2);
    KeepsStream(s2);
  }

  lemma LengthOfBody(s: State, n: nat)
    requires Inv(s) && s.phase.AwaitBody? && Complete(s.stream[s.start..]) && n == FrameLen(s.stream[s.start..]) - 2
    ensures s.phase.length == n <= |s.rx|
  {
    hide FramesOf, AllFrames, Expand, Announced;
  }

  lemma BodyOfFrame(s: State, n: nat)
    requires Inv(s) && s.phase.AwaitBody? && Complete(s.stream[s.start..]) && s.phase.length == n <= |s.rx|
    requires n == FrameLen(s.stream[s.start..]) - 2
    ensures Frame(s.rx[..n], s.phase.stamp) == FirstFrame(s.stream[s.start..])
  {
    BodyIsFrame(s);
    var rest := s.stream[s.start..];
    var f := s.stream[s.start..s.start + 2 + n];
    assert rest == f + rest[2 + n..];
    hide *;
    CompletePrefix(f, rest[2 + n..]);
  }

  lemma KeepsStream(s: State)
    requires Inv(s) && s.phase.AwaitBody? && |s.rx| >= s.phase.length
    ensures Proceeded(s, true).stream == s.stream
  {
    hide FramesOf, AllFrames, Expand, Announced, Consume;
    BodyLeavesQueues(s);
  }

  lemma NothingRun(s: State)
    ensures Run(s, []) == s
  {
  }

  // ---- the code ----

  lemma RunSnoc(s: State, es: seq<Event>, e: Event)
    ensures Run(s, es + [e]) == Next(Run(s, es), e)
  {
    assert (es + [e])[..|es|] == es;
  }

  /** What is there to look at once `n` bytes were awaited: packets are added until there are as many, or none comes. */
  function Awaited(have: seq<Tagged>, n: nat, arriving: seq<(seq<byte>, nat)>): (r: seq<Tagged>)
    ensures have <= r && (|have| >= n ==> r == have)
    decreases |arriving|
  {
    if |have| >= n || arriving == [] then have
    else Awaited(have + Tag(arriving[0].0, arriving[0].1), n, arriving[1..])
  }

  /** First a header is awaited, and then as many bytes as it announces. */
  function AwaitedFrame(have: seq<Tagged>, header: seq<(seq<byte>, nat)>, body: seq<(seq<byte>, nat)>): (r: seq<Tagged>)
    ensures have <= r && (Complete(have) ==> r == have)
  {
    var head := Awaited(have, 2, header);
    if |head| < 2 then head else Awaited(head, 2 + Announced(ValuesOf(head)), body)
  }

  /** The events are a run without overflow, from a state that keeps the invariant. */
  ghost predicate Sound(begin: State, es: seq<Event>) { Inv(begin) && NoOverflow(begin, es) }

  lemma SoundBefore(begin: State, es: seq<Event>, e: Event)
    requires Sound(begin, es + [e])
    ensures Sound(begin, es) && Fits(Run(begin, es), e)
  {
    assert (es + [e])[..|es|] == es;
  }

  /** In a sound run the receive queue has the bytes of the stream that were not taken yet. */
  lemma SoundLengths(begin: State, es: seq<Event>)
    requires Sound(begin, es)
    ensures Inv(Run(begin, es))
    ensures var s := Run(begin, es); s.start <= Taken(s) <= |s.stream| && |s.rx| == |s.stream| - Taken(s)
    ensures var s := Run(begin, es); s.phase.Ready? ==> (s.notes == [] <==> s.start == |s.stream|)
  {
    RunKeeps(begin, es);
    var s := Run(begin, es);
    hide Run, NoOverflow, AllFrames, FramesOf, Announced;
    assert |Expand(s.notes)| == |StampsOf(s.stream[s.start..])|;
    if s.notes != [] {
      assert |Expand(s.notes)| >= s.notes[0].length;
    }
  }

  lemma AwaitedEnds(have: seq<Tagged>, n: nat, arriving: seq<(seq<byte>, nat)>)
    requires |have| >= n || arriving == []
    ensures Awaited(have, n, arriving) == have
  {
  }

  lemma NothingSound(begin: State)
    ensures Sound(begin, []) <==> Inv(begin)
    ensures forall es :: Sound(begin, es) ==> Inv(begin)
  {
  }

  lemma ThreeProceeds(begin: State, decodes: bool)
    requires Inv(begin)
    ensures var p := [Proceed(decodes)]; Sound(begin, p) && Sound(begin, p + p) && Sound(begin, p + p + p)
  {
    hide Inv, Proceeded;
    var p := Proceed(decodes);
    assert [p, p, p][..2] == [p, p] && [p, p][..1] == [p] && [p][..0] == [];
    assert NoOverflow(begin, []);
    assert NoOverflow(begin, [p]);
    assert NoOverflow(begin, [p, p]);
    assert [p] + [p] == [p, p] && [p] + [p] + [p] == [p, p, p];
  }

  lemma Behind(a: seq<Tagged>, b: seq<Tagged>, start: nat)
    requires start <= |a|
    ensures (a + b)[start..] == a[start..] + b
  {
  }

  /** The header says the same however many bytes follow. */
  lemma AnnouncedStays(a: seq<Tagged>, b: seq<Tagged>)
    requires |a| >= 2 && a <= b
    ensures Announced(ValuesOf(b)) == Announced(ValuesOf(a))
  {
    SameHeader(a, b[|a|..]);
    assert a + b[|a|..] == b;
  }

  lemma AwaitedInTwo(have: seq<Tagged>, header: seq<(seq<byte>, nat)>, body: seq<(seq<byte>, nat)>)
    ensures var head, whole := Awaited(have, 2, header), AwaitedFrame(have, header, body);
      && (|head| < 2 ==> !Complete(whole))
      && (|head| >= 2 ==> whole == Awaited(head, 2 + Announced(ValuesOf(head)), body))
  {
  }

  /** With the header there, the frame is whole if there are as many bytes behind it as it announces. */
  lemma WholeIff(head: seq<Tagged>, body: seq<(seq<byte>, nat)>, length: nat)
    requires |head| >= 2 && length == Announced(ValuesOf(head))
    ensures var heard := Awaited(head, 2 + length, body);
      (Complete(heard) <==> |heard| >= 2 + length) && (Complete(head) <==> |head| >= 2 + length)
  {
    hide Announced, Awaited;
    AnnouncedStays(head, Awaited(head, 2 + length, body));
  }

  lemma AtLeastHeader(s: seq<Tagged>)
    ensures Complete(s) ==> |s| >= 2
  {
  }

  /** What is handed on at the end of a body that is there is the first frame of the stream. */
  lemma BodyIsFirst(s: State)
    requires Inv(s) && s.phase.AwaitBody? && |s.rx| >= s.phase.length
    ensures s.start <= |s.stream| && Complete(s.stream[s.start..])
    ensures Frame(s.rx[..s.phase.length], s.phase.stamp) == FirstFrame(s.stream[s.start..])
    ensures Consume(s.notes, (s.phase.length + 2) % 0x1_0000).Left?
  {
    hide FramesOf, AllFrames, Expand, Consume;
    BodyLeavesQueues(s);
    BodyOfFrame(s, s.phase.length);
  }

  /** The receiving side of the request handler: the byte queue, the queue of notifications, and the consuming loop. */
  class Receiver {
    var rx: seq<byte>
    var notes: seq<Note>
    ghost var phase: Phase
    ghost var stream: seq<Tagged>
    ghost var start: nat
    ghost var frames: seq<Frame>

    ghost function Now(): State
      reads this
    {
      State(rx, notes, phase, stream, start, frames)
    }

    constructor ()
      ensures Now() == INITIAL
    {
      rx, notes := [], [];
      phase, stream, start, frames := Ready, [], 0, [];
    }

    /** A packet comes in. */
    method OnReceive(data: seq<byte>, stamp: nat)
      modifies this
      ensures Now() == Arrived(old(Now()), data, stamp)
    {
      var room := if |rx| <= RX_SIZE then RX_SIZE - |rx| else 0;
      rx := rx + if |data| <= room then data else data[..room];
      if |notes| < NOTES && |data| < 0x1_0000 {
        notes := notes + [Note(|data|, stamp)];
      }
      stream := stream + Tag(data, stamp);
    }

    /** `finish_error`. */
    method FinishError()
      modifies this
      ensures Now() == INITIAL
    {
      rx, notes := [], [];
      phase, stream, start, frames := Ready, [], 0, [];
    }

    /** The consuming loop: which notifications belong to the next `n` bytes, and what is left of the last of them. */
    method ConsumeNotifications(n: nat) returns (ok: bool)
      modifies `notes
      ensures ok <==> Consume(old(notes), n).Left?
      ensures ok ==> notes == Consume(old(notes), n).notes
      ensures !ok ==> notes == []
    {
      var left, index := n, 0;
      ghost var before := notes;
      assert before[0..] == before;
      while left > 0
        invariant 0 <= index <= |notes| == |before| && 0 <= left
        invariant left > 0 ==> notes == before && Consume(before, n) == Consume(before[index..], left)
        invariant left == 0 ==> Consume(before, n) == Left(notes[index..])
        decreases left, |notes| - index
      {
        if index >= |notes| {
          notes := [];
          return false;
        }
        var note := notes[index];
        assert before[index..][0] == note && before[index..][1..] == before[index + 1..];
        if note.length <= left {
          left := left - note.length;
          index := index + 1;
        } else {
          notes := notes[index := note.(length := note.length - left)];
          assert notes[index..] == [note.(length := note.length - left)] + before[index + 1..];
          left := 0;
        }
      }
      assert n == 0 ==> Consume(before, n) == Left(before);
      var i := 0;
      ghost var adapted := notes;
      assert adapted[0..] == adapted;
      while i < index
        invariant 0 <= i <= index && notes == adapted[i..]
      {
        notes := notes[1..];
        i := i + 1;
      }
      ok := true;
    }

    method AwaitOne(ghost m: nat, packet: (seq<byte>, nat), ghost arriving: seq<(seq<byte>, nat)>, ghost begin: State,
        ghost es: seq<Event>)
      returns (ghost es': seq<Event>)
      requires Now() == Run(begin, es) && arriving != [] && arriving[0] == packet
      modifies this
      ensures Now() == Run(begin, es') && es' == es + [Arrive(packet.0, packet.1)]
      ensures phase == old(phase) && frames == old(frames) && start == old(start)
      ensures Sound(begin, es') ==>
        && Sound(begin, es) && start <= |old(stream)| && start <= |stream|
        && (|old(rx)| < m - (Taken(Now()) - start) ==>
              Awaited(stream[start..], m, arriving[1..]) == Awaited(old(stream)[start..], m, arriving))
    {
      hide Run, Sound;
      RunSnoc(begin, es, Arrive(packet.0, packet.1));
      es' := es + [Arrive(packet.0, packet.1)];
      OnReceive(packet.0, packet.1);
      if Sound(begin, es') {
        SoundBefore(begin, es, Arrive(packet.0, packet.1));
        SoundLengths(begin, es);
        Behind(old(stream), Tag(packet.0, packet.1), start);
      }
    }

    /** `sender_await_data` looks at the queue while packets come in, until there are `n` bytes or the time is up. */
    method Await(n: nat, arriving: seq<(seq<byte>, nat)>, ghost begin: State, ghost es: seq<Event>)
      returns (enough: bool, ghost es': seq<Event>)
      requires Now() == Run(begin, es) && !phase.Ready?
      modifies this
      ensures Now() == Run(begin, es') && phase == old(phase) && frames == old(frames) && start == old(start)
      ensures es <= es' && (enough <==> |rx| >= n) && (|old(rx)| >= n ==> es' == es)
      ensures Sound(begin, es') ==>
        && Sound(begin, es) && start <= |old(stream)| && start <= |stream|
        && stream[start..] == Awaited(old(stream)[start..], n + Taken(Now()) - start, arriving)
    {
      hide Run, Sound, Awaited;
      es' := es;
      ghost var m := n + Taken(Now()) - start;
      var i := 0;
      assert arriving[0..] == arriving;
      if Sound(begin, es) {
        SoundLengths(begin, es);
      }
      while |rx| < n && i < |arriving|
        invariant 0 <= i <= |arriving| && Now() == Run(begin, es') && phase == old(phase) && frames == old(frames)
        invariant es <= es' && start == old(start) && (i == 0 ==> es' == es && rx == old(rx)) && (i > 0 ==> |old(rx)| < n)
        invariant Sound(begin, es') ==>
          && Sound(begin, es) && start <= |old(stream)| && start <= |stream|
          && Awaited(stream[start..], m, arriving[i..]) == Awaited(old(stream)[start..], m, arriving)
        decreases |arriving| - i
      {
        es' := AwaitOne(m, arriving[i], arriving[i..], begin, es');
        assert arriving[i..][1..] == arriving[i + 1..];
        i := i + 1;
      }
      if Sound(begin, es') {
        SoundLengths(begin, es');
        AwaitedEnds(stream[start..], m, arriving[i..]);
      }
      enough := |rx| >= n;
    }

    method GiveUp(ghost begin: State, ghost es: seq<Event>) returns (ghost es': seq<Event>)
      requires Now() == Run(begin, es) && Waits(Now())
      modifies this
      ensures Now() == Run(begin, es') && Now() == INITIAL && es' == es + [TimeOut]
      ensures Sound(begin, es') ==>
        && Sound(begin, es) && old(start) <= |old(stream)|
        && |old(stream)| - old(start) < if old(phase).AwaitBody? then 2 + old(phase).length else 2
    {
      hide Run, Sound;
      if Sound(begin, es + [TimeOut]) {
        SoundBefore(begin, es, TimeOut);
        SoundLengths(begin, es);
      }
      RunSnoc(begin, es, TimeOut);
      es' := es + [TimeOut];
      FinishError();
    }

    method TakeHeader(decodes: bool, stamp: nat, ghost begin: State, ghost es: seq<Event>)
      returns (length: u16, ghost es': seq<Event>)
      requires Now() == Run(begin, es) && phase == AwaitHeader(stamp) && |rx| >= 2
      modifies this
      ensures Now() == Run(begin, es') && phase == AwaitBody(stamp, length) && frames == old(frames)
      ensures es' == es + [Proceed(decodes)] && stream == old(stream) && start == old(start)
      ensures Sound(begin, es') ==>
        && Sound(begin, es) && start + 2 <= |stream| && length == Announced(ValuesOf(stream[start..]))
    {
      hide Run, Sound;
      RunSnoc(begin, es, Proceed(decodes));
      es' := es + [Proceed(decodes)];
      length := Decode16(rx[..2]);
      rx := rx[2..];
      phase := AwaitBody(stamp, length);
      if Sound(begin, es') {
        SoundBefore(begin, es, Proceed(decodes));
        SoundLengths(begin, es');
      }
    }

    method TakeBody(decodes: bool, stamp: nat, length: u16, ghost begin: State, ghost es: seq<Event>)
      returns (done: bool, request: Frame, ghost es': seq<Event>)
      requires Now() == Run(begin, es) && phase == AwaitBody(stamp, length) && |rx| >= length
      modifies this
      ensures Now() == Run(begin, es') && phase.Ready? && es' == es + [Proceed(decodes)]
      ensures if done then frames == old(frames) + [request] else Now() == INITIAL
      ensures Sound(begin, es') ==>
        && Sound(begin, es) && old(start) <= |old(stream)| && Complete(old(stream)[old(start)..])
        && (done <==> decodes) && request == FirstFrame(old(stream)[old(start)..])
    {
      hide Run, Consume, Sound;
      if Sound(begin, es + [Proceed(decodes)]) {
        SoundBefore(begin, es, Proceed(decodes));
        SoundLengths(begin, es);
        BodyIsFirst(Now());
      }
      RunSnoc(begin, es, Proceed(decodes));
      es' := es + [Proceed(decodes)];
      request := Frame(rx[..length], stamp);
      rx := rx[length..];
      done := ConsumeNotifications((length + 2) % 0x1_0000);
      done := done && decodes;
      if done {
        phase := Ready;
        start := start + 2 + length;
        frames := frames + [request];
      } else {
        FinishError();
      }
    }

    /** The second half of `process_receive_notification`: the length is read, and the request is awaited. */
    method HearBody(decodes: bool, stamp: nat, arriving: seq<(seq<byte>, nat)>, ghost begin: State, ghost es: seq<Event>)
      returns (done: bool, request: Frame, ghost es': seq<Event>)
      requires Now() == Run(begin, es) && phase == AwaitHeader(stamp) && |rx| >= 2
      modifies this
      ensures Now() == Run(begin, es') && phase.Ready? && es + [Proceed(decodes)] <= es'
      ensures if done then frames == old(frames) + [request] else Now() == INITIAL
      ensures Sound(begin, es') ==> Sound(begin, es) && old(start) + 2 <= |old(stream)|
      ensures Sound(begin, es') ==>
        var head := old(stream)[old(start)..];
        var heard := Awaited(head, 2 + Announced(ValuesOf(head)), arriving);
        (done <==> decodes && Complete(heard)) && (done ==> request == FirstFrame(heard))
      ensures Sound(begin, es + [Proceed(decodes)]) && old(start) <= |old(stream)| && Complete(old(stream)[old(start)..]) ==>
        es' == es + [Proceed(decodes)] + [Proceed(decodes)]
    {
      hide Run, Consume, Sound, Complete, Awaited, FirstFrame, Announced;
      done, request := false, Frame([], 0);
      ghost var head := stream;
      var length: u16;
      ghost var es1, es2;
      length, es1 := TakeHeader(decodes, stamp, begin, es);
      if Sound(begin, es1) {
        SoundLengths(begin, es1);
        WholeIff(head[start..], arriving, length);
      }
      var enough;
      enough, es2 := Await(length, arriving, begin, es1);
      if !enough {
        es' := GiveUp(begin, es2);
        return;
      }
      done, request, es' := TakeBody(decodes, stamp, length, begin, es2);
    }

    /** The first step of `process_receive_notification`: the time of the first notification. */
    method Notice(ghost decodes: bool) returns (stamp: nat)
      requires phase.Ready? && notes != []
      modifies `phase
      ensures Now() == Run(old(Now()), [Proceed(decodes)]) && phase == AwaitHeader(stamp)
    {
      hide Run;
      ghost var begin := Now();
      NothingRun(begin);
      RunSnoc(begin, [], Proceed(decodes));
      assert [] + [Proceed(decodes)] == [Proceed(decodes)];
      stamp := notes[0].stamp;
      phase := AwaitHeader(stamp);
    }

    /**
     * `process_receive_notification`, with packets coming in while it waits; `decodes` is what decoder and handler make of
     * the request. It is a run of the machine above, and hands on at most one request.
     */
    method Process(decodes: bool, whileHeader: seq<(seq<byte>, nat)>, whileBody: seq<(seq<byte>, nat)>)
      returns (done: bool, request: Frame, ghost es: seq<Event>)
      requires phase.Ready?
      modifies this
      ensures Now() == Run(old(Now()), es) && phase.Ready?
      // Nothing notified, nothing done; otherwise the machine is set going.
      ensures old(notes) == [] ==> es == [] && !done && Now() == old(Now())
      ensures old(notes) != [] ==> es != [] && es[0] == Proceed(decodes)
      ensures if done then frames == old(frames) + [request] else Now() == old(Now()) || Now() == INITIAL
      // A whole frame that is there is handed on, unless it does not decode.
      ensures Inv(old(Now())) && Complete(old(stream)[old(start)..]) && decodes ==>
        done && request == FirstFrame(old(stream)[old(start)..])
      // So is one that gets whole by what comes in meanwhile, and nothing else is.
      ensures Sound(old(Now()), es) ==>
        var heard := AwaitedFrame(old(stream)[old(start)..], whileHeader, whileBody);
        && (done <==> decodes && old(start) < |old(stream)| && Complete(heard))
        && (done ==> request == FirstFrame(heard))
    {
      hide Run, Consume, Sound, Complete, Awaited, AwaitedFrame, FirstFrame, Announced, Inv, Proceeded, Next;
      ghost var begin := Now();
      done, request, es := false, Frame([], 0), [];
      NothingRun(begin);
      NothingSound(begin);
      if Inv(begin) {
        ThreeProceeds(begin, decodes);
        SoundLengths(begin, []);
        AtLeastHeader(stream[start..]);
        AwaitedInTwo(stream[start..], whileHeader, whileBody);
      }
      if notes == [] {
        return;
      }
      es := [Proceed(decodes)];
      var stamp := Notice(decodes);
      if Sound(begin, es) {
        SoundLengths(begin, es);
      }
      ghost var begun := es;
      var enough;
      enough, es := Await(2, whileHeader, begin, begun);
      if !enough {
        es := GiveUp(begin, es);
        return;
      }
      ghost var sofar := es;
      done, request, es := HearBody(decodes, stamp, whileBody, begin, sofar);
    }
  }
}
