/** The transmit queue: a main context that fills it, and a timer interrupt that empties it (sender_lib.c). */
module Sender {
  import opened Bytes

  const TX_SIZE := 512
  const PACKET := 20

  datatype Ret = Success | InvalidState | NoMem

  /** Where the main context is inside `sender_transmit`. */
  datatype Pc =
    | Idle(last: Ret)
    | Waiting(data: seq<byte>)     // connected; looking for space in the queue
    | Writing(data: seq<byte>)     // found space; about to write
    | Testing                      // written; about to look at the flag
    | Setting                      // the flag was down; about to raise it
    | Starting                     // the flag is up; about to start the timer

  /** The flags, the timer and the queue; and what has been accepted and sent since the last reset. */
  datatype State = State(
    connected: bool, transmitting: bool, timer: bool, queue: seq<byte>, pc: Pc,
    accepted: seq<byte>, packets: seq<seq<byte>>)

  /** What may interrupt the main context between any two of its statements. */
  datatype Interrupt = Tick(delivered: bool) | Connect | Disconnect

  datatype Event = Hardware(what: Interrupt) | Call(data: seq<byte>) | Proceed(timedOut: bool)

  // ---- the steps ----

  /** `sender_reset`. */
  function Reset(s: State): State {
    s.(connected := false, transmitting := false, queue := [], accepted := [], packets := [])
  }

  /** The bytes that go into one packet. */
  function Front(queue: seq<byte>): seq<byte> { if |queue| > PACKET then queue[..PACKET] else queue }

  /** `transmit_queued_bytes`, in the timer interrupt. */
  function TransmitQueued(s: State, delivered: bool): State {
    if !s.transmitting then s.(timer := false)
    else if s.queue == [] then s.(transmitting := false, timer := false)
    else if delivered then s.(queue := s.queue[|Front(s.queue)|..], packets := s.packets + [Front(s.queue)])
    else s
  }

  function Interrupted(s: State, what: Interrupt): State {
    match what
    case Tick(delivered) => TransmitQueued(s, delivered)
    case Connect => Reset(s).(connected := true)
    case Disconnect => Reset(s)
  }

  function Space(s: State): int { TX_SIZE - |s.queue| }

  /** The next statement of `sender_transmit`. */
  function Proceeded(s: State, timedOut: bool): State {
    match s.pc
    case Idle(_) => s
    case Waiting(data) =>
      if |data| <= Space(s) then s.(pc := Writing(data))
      else if timedOut then s.(pc := Idle(NoMem))
      else s
    case Writing(data) =>
      if Space(s) <= 0 then s.(pc := Idle(NoMem))
      else
        var written := if |data| <= Space(s) then data else data[..Space(s)];
        s.(queue := s.queue + written, accepted := s.accepted + written, pc := Testing)
    case Testing => if s.transmitting then s.(pc := Idle(Success)) else s.(pc := Setting)
    case Setting => s.(transmitting := true, pc := Starting)
    case Starting => s.(timer := true, pc := Idle(Success))
  }

  function Next(s: State, e: Event): State {
    match e
    case Hardware(what) => Interrupted(s, what)
    case Call(data) =>
      if !s.pc.Idle? then s
      else if !s.connected then s.(pc := Idle(InvalidState))
      else s.(pc := Waiting(data))
    case Proceed(timedOut) => Proceeded(s, timedOut)
  }

  function Run(s: State, es: seq<Event>): State
    decreases |es|
  {
    if es == [] then s else Next(Run(s, es[..|es| - 1]), es[|es| - 1])
  }

  /** After `sender_init`. */
  const INITIAL := State(false, false, false, [], Idle(Success), [], [])

  // ---- what every step keeps ----

  function Joined(packets: seq<seq<byte>>): seq<byte> {
    if packets == [] then [] else Joined(packets[..|packets| - 1]) + packets[|packets| - 1]
  }

  predicate ArePackets(packets: seq<seq<byte>>) {
    forall i :: 0 <= i < |packets| ==> 0 < |packets[i]| <= PACKET
  }

  /** What has been sent, and then what is queued, is what has been accepted, in packets of the right size. */
  predicate Conserved(s: State) {
    s.accepted == Joined(s.packets) + s.queue && ArePackets(s.packets) && |s.queue| <= TX_SIZE
  }

  /** The flag and the timer, against the queue and the place in the main context. */
  predicate Awake(s: State) {
    && (s.transmitting && !s.pc.Starting? ==> s.timer)
    && (s.queue != [] && !s.pc.Testing? && !s.pc.Setting? ==> s.transmitting)
    && (s.pc.Writing? ==> |s.pc.data| <= Space(s))
  }

  predicate Inv(s: State) { Conserved(s) && Awake(s) }

  lemma TransmitKeeps(s: State, delivered: bool)
    requires Inv(s)
    ensures Inv(TransmitQueued(s, delivered))
  {
    var front := Front(s.queue);
    assert s.queue == front + s.queue[|front|..];
    assert Joined(s.packets) + s.queue == Joined(s.packets) + front + s.queue[|front|..];
  }

  lemma ProceedKeeps(s: State, timedOut: bool)
    requires Inv(s)
    ensures Inv(Proceeded(s, timedOut))
  {
    hide Joined, ArePackets;
    if s.pc.Writing? {
      WriteKeeps(s);
    }
  }

  lemma WriteKeeps(s: State)
    requires Inv(s) && s.pc.Writing?
    ensures Inv(Proceeded(s, false))
  {
    hide Joined, ArePackets;
    if Space(s) > 0 {
      assert s.accepted + s.pc.data == Joined(s.packets) + (s.queue + s.pc.data);
    }
  }

  lemma NextKeeps(s: State, e: Event)
    requires Inv(s)
    ensures Inv(Next(s, e))
  {
    match e {
      case Hardware(Tick(delivered)) => TransmitKeeps(s, delivered);
      case Proceed(timedOut) => ProceedKeeps(s, timedOut);
      case Call(_) =>
      case Hardware(_) =>
    }
  }

  /** However interrupts, connections and calls interleave. */
  lemma {:induction false} RunKeeps(s: State, es: seq<Event>)
    requires Inv(s)
    ensures Inv(Run(s, es))
    decreases |es|
  {
    if es != [] {
      RunKeeps(s, es[..|es| - 1]);
      NextKeeps(Run(s, es[..|es| - 1]), es[|es| - 1]);
    }
  }

  // ---- the promises ----

  /** At every moment of every run: nothing accepted since the last reset is lost, doubled or reordered. */
  lemma NothingLost(es: seq<Event>)
    ensures var s := Run(INITIAL, es);
      && s.accepted == Joined(s.packets) + s.queue && |s.queue| <= 512
      && forall i :: 0 <= i < |s.packets| ==> 0 < |s.packets[i]| <= 20
  {
    assert Inv(INITIAL);
    RunKeeps(INITIAL, es);
  }

  /** A connection begins, and one ends, with nothing queued and nothing to send. */
  lemma ConnectionsAreFresh(es: seq<Event>, what: Interrupt)
    requires !what.Tick?
    ensures var s, s' := Run(INITIAL, es), Run(INITIAL, es + [Hardware(what)]);
      && s'.queue == [] && s'.accepted == [] && s'.packets == [] && !s'.transmitting && s'.connected == what.Connect?
      && s'.pc == s.pc && s'.timer == s.timer
  {
    RunSnoc(INITIAL, es, Hardware(what));
  }

  /** A tick that gets through sends the first twenty bytes queued, or all of them if there are fewer, and no others. */
  lemma TickSends(es: seq<Event>, delivered: bool)
    ensures var s, s' := Run(INITIAL, es), Run(INITIAL, es + [Hardware(Tick(delivered))]);
      if s.transmitting && s.queue != [] && delivered
      then exists packet :: |packet| == (if |s.queue| < 20 then |s.queue| else 20) && s.queue == packet + s'.queue
                            && s'.packets == s.packets + [packet]
      else s'.queue == s.queue && s'.packets == s.packets
  {
    RunSnoc(INITIAL, es, Hardware(Tick(delivered)));
    var s := Run(INITIAL, es);
    hide Run;
    if s.transmitting && s.queue != [] && delivered {
      var front := Front(s.queue);
      assert s.queue == front + s.queue[|front|..];
    }
  }

  /** Whenever no call is in progress and something is queued, the flag is up and the timer runs. */
  lemma NoLostWakeUp(es: seq<Event>)
    ensures var s := Run(INITIAL, es); s.pc.Idle? && s.queue != [] ==> s.transmitting && s.timer
  {
    assert Inv(INITIAL);
    RunKeeps(INITIAL, es);
  }

  /** A call writes all of its data or nothing: the space found is still there when the data are written. */
  lemma AllOrNothing(es: seq<Event>, timedOut: bool)
    ensures var s, s' := Run(INITIAL, es), Next(Run(INITIAL, es), Proceed(timedOut));
      s.pc.Writing? ==>
        || (s'.accepted == s.accepted + s.pc.data && s'.queue == s.queue + s.pc.data && s'.pc == Testing)
        || (s'.accepted == s.accepted && s'.queue == s.queue && s'.pc == Idle(NoMem) && s.pc.data == [])
  {
    assert Inv(INITIAL);
    RunKeeps(INITIAL, es);
  }

  // ---- what is queued gets sent ----

  function Ticks(n: nat): seq<Event> { seq(n, i => Hardware(Tick(true))) }

  lemma {:induction false} RunInTwo(s: State, a: seq<Event>, b: seq<Event>)
    ensures Run(s, a + b) == Run(Run(s, a), b)
    decreases |b|
  {
    if b == [] {
      assert a + b == a;
    } else {
      assert (a + b)[..|a + b| - 1] == a + b[..|b| - 1];
      RunInTwo(s, a, b[..|b| - 1]);
    }
  }

  /** Ticks that get through empty the queue, twenty bytes at a time, and then the timer stops. */
  lemma {:induction false} TicksDrain(s: State, n: nat)
    requires Inv(s) && s.transmitting && s.timer && |s.queue| <= PACKET * n
    ensures var t := Run(s, Ticks(n + 1));
      && t.queue == [] && Joined(t.packets) == s.accepted && t.accepted == s.accepted
      && !t.transmitting && !t.timer && t.connected == s.connected && t.pc == s.pc
    decreases n
  {
    var s1 := TransmitQueued(s, true);
    TransmitKeeps(s, true);
    RunInTwo(s, [Hardware(Tick(true))], Ticks(n));
    assert Ticks(n + 1) == [Hardware(Tick(true))] + Ticks(n);
    if n > 0 && s.queue != [] {
      TicksDrain(s1, n - 1);
    } else {
      StaysDown(s1, n);
    }
  }

  lemma {:induction false} StaysDown(s: State, n: nat)
    requires !s.transmitting && !s.timer
    ensures Run(s, Ticks(n)) == s
    decreases n
  {
    if n > 0 {
      assert Ticks(n)[..n - 1] == Ticks(n - 1);
      StaysDown(s, n - 1);
    }
  }

  /** So from any moment at which no call is in progress, enough ticks that get through send all that was accepted. */
  lemma QueuedIsSent(es: seq<Event>, n: nat)
    requires Run(INITIAL, es).pc.Idle? && |Run(INITIAL, es).queue| <= PACKET * n
    ensures var s, t := Run(INITIAL, es), Run(INITIAL, es + Ticks(n + 1));
      t.queue == [] && t.accepted == s.accepted && Joined(t.packets) == s.accepted
  {
    var s := Run(INITIAL, es);
    assert Inv(INITIAL);
    RunKeeps(INITIAL, es);
    RunInTwo(INITIAL, es, Ticks(n + 1));
    if s.queue != [] || (s.transmitting && s.timer) {
      TicksDrain(s, n);
    } else {
      assert !s.transmitting;
      RunInTwo(s, [Hardware(Tick(true))], Ticks(n));
      assert Ticks(n + 1) == [Hardware(Tick(true))] + Ticks(n);
      StaysDown(TransmitQueued(s, true), n);
      assert Joined(s.packets) + [] == Joined(s.packets);
    }
  }

  // ---- the code ----

  /** What interrupts the statements of one call: while it waits for space, and before each statement after that. */
  datatype Schedule = Schedule(
    waiting: seq<seq<Interrupt>>, beforeWrite: seq<Interrupt>, beforeTest: seq<Interrupt>, beforeSet: seq<Interrupt>,
    beforeStart: seq<Interrupt>)

  function Events(whats: seq<Interrupt>): (r: seq<Event>)
    ensures |r| == |whats| && forall i :: 0 <= i < |whats| ==> r[i] == Hardware(whats[i])
  {
    seq(|whats|, i requires 0 <= i < |whats| => Hardware(whats[i]))
  }

  lemma RunSnoc(s: State, es: seq<Event>, e: Event)
    ensures Run(s, es + [e]) == Next(Run(s, es), e)
  {
    assert (es + [e])[..|es|] == es;
  }

  /** `k` looks for space that find none, each with the interrupts behind it. */
  function Looks(waiting: seq<seq<Interrupt>>, k: nat): seq<Event>
    requires k <= |waiting|
  {
    if k == 0 then [] else Looks(waiting, k - 1) + [Proceed(false)] + Events(waiting[k - 1])
  }

  predicate OnlyTicks(whats: seq<Interrupt>) { forall i :: 0 <= i < |whats| ==> whats[i].Tick? }

  predicate AllTicks(waiting: seq<seq<Interrupt>>) { forall i :: 0 <= i < |waiting| ==> OnlyTicks(waiting[i]) }

  predicate AllQuiet(waiting: seq<seq<Interrupt>>) { forall i :: 0 <= i < |waiting| ==> waiting[i] == [] }

  /** Nothing but the timer interrupts the call. */
  predicate TicksOnly(schedule: Schedule) {
    && AllTicks(schedule.waiting)
    && OnlyTicks(schedule.beforeWrite) && OnlyTicks(schedule.beforeTest) && OnlyTicks(schedule.beforeSet)
    && OnlyTicks(schedule.beforeStart)
  }

  /** Nothing interrupts the call once it has found space. */
  predicate QuietBehind(schedule: Schedule) {
    schedule.beforeWrite == schedule.beforeTest == schedule.beforeSet == schedule.beforeStart == []
  }

  /** `es'` goes on from `es` with no further call. */
  predicate GoesOn(es: seq<Event>, es': seq<Event>) {
    es <= es' && forall i :: |es| <= i < |es'| ==> !es'[i].Call?
  }

  lemma GoesOnSnoc(es: seq<Event>, es': seq<Event>, e: Event)
    requires GoesOn(es, es') && !e.Call?
    ensures GoesOn(es, es' + [e])
  {
  }

  lemma GoesOnItself(es: seq<Event>)
    ensures GoesOn(es, es) && es + [] == es
    ensures forall waiting :: Looks(waiting, 0) == []
  {
  }

  lemma GoesOnTrans(a: seq<Event>, b: seq<Event>, c: seq<Event>)
    requires GoesOn(a, b) && GoesOn(b, c)
    ensures GoesOn(a, c)
  {
  }

  lemma LooksUnfold(es: seq<Event>, waiting: seq<seq<Interrupt>>, k: nat)
    requires k < |waiting|
    ensures es + Looks(waiting, k) + [Proceed(false)] + Events(waiting[k]) == es + Looks(waiting, k + 1)
  {
  }

  /** Interrupts only make space; the timer neither accepts nor forgets anything. */
  lemma InterruptedMeans(s: State, what: Interrupt)
    ensures |Interrupted(s, what).queue| <= |s.queue|
    ensures what.Tick? ==> Interrupted(s, what).accepted == s.accepted && Interrupted(s, what).connected == s.connected
  {
  }

  /** The place of position `i` in the ring buffer. */
  function Slot(i: nat): (k: nat)
    ensures k < TX_SIZE
  {
    i % TX_SIZE
  }

  /** Positions less than a lap apart have different places. */
  lemma SlotsDiffer(a: nat, b: nat)
    requires a < b < a + TX_SIZE
    ensures Slot(a) != Slot(b)
  {
  }

  class Transmitter {
    const txBuf: array<byte>
    var readPos: nat
    var writePos: nat
    var connected: bool
    var transmitting: bool
    var timer: bool
    ghost var pc: Pc
    ghost var accepted: seq<byte>
    ghost var packets: seq<seq<byte>>

    ghost predicate Valid()
      reads this
    {
      txBuf.Length == TX_SIZE && readPos <= writePos <= readPos + TX_SIZE
    }

    function Queue(): (r: seq<byte>)
      requires Valid()
      reads this, txBuf
      ensures |r| == writePos - readPos
      ensures forall i :: 0 <= i < |r| ==> r[i] == txBuf[Slot(readPos + i)]
    {
      seq(writePos - readPos, i requires 0 <= i < writePos - readPos && txBuf.Length == TX_SIZE reads this, txBuf =>
        txBuf[Slot(readPos + i)])
    }

    ghost function Now(): State
      requires Valid()
      reads this, txBuf
    {
      State(connected, transmitting, timer, Queue(), pc, accepted, packets)
    }

    constructor ()
      ensures Valid() && fresh(txBuf) && Now() == INITIAL
    {
      txBuf := new byte[TX_SIZE](_ => 0);
      readPos, writePos := 0, 0;
      connected, transmitting, timer := false, false, false;
      pc, accepted, packets := Idle(Success), [], [];
    }

    method ResetSender()
      requires Valid()
      modifies this
      ensures Valid() && Now() == Reset(old(Now()))
    {
      connected := false;
      transmitting := false;
      readPos := writePos;
      accepted, packets := [], [];
    }

    /** The timer interrupt; `delivered` is what the radio answers. */
    method TransmitQueuedBytes(delivered: bool)
      requires Valid()
      modifies this
      ensures Valid() && Now() == TransmitQueued(old(Now()), delivered)
    {
      if !transmitting {
        timer := false;
        return;
      }
      var remaining := writePos - readPos;
      if remaining == 0 {
        transmitting := false;
      }
      var len := if remaining > PACKET then PACKET else remaining;
      if len > 0 {
        var buffer: seq<byte> := [];
        var i := 0;
        while i < len
          invariant 0 <= i <= len && buffer == Queue()[..i]
        {
          buffer := buffer + [txBuf[Slot(readPos + i)]];
          i := i + 1;
        }
        if delivered {
          ghost var queue := Queue();
          readPos := readPos + len;
          packets := packets + [buffer];
          assert buffer == Front(queue) && Queue() == queue[len..];
        }
      } else {
        timer := false;
        assert Queue() == [];
      }
    }

    method Put(b: byte)
      requires Valid() && writePos - readPos < TX_SIZE
      modifies `writePos, txBuf
      ensures Valid() && Queue() == old(Queue()) + [b] && writePos == old(writePos) + 1
    {
      ghost var n := writePos - readPos;
      forall a: nat | readPos <= a < writePos ensures Slot(a) != Slot(writePos) {
        SlotsDiffer(a, writePos);
      }
      hide Slot;
      txBuf[Slot(writePos)] := b;
      writePos := writePos + 1;
      assert Queue()[n] == b;
      assert Queue() == old(Queue()) + [b];
    }

    /** `app_fifo_write` on the transmit queue: as many bytes as there is space for. */
    method Enqueue(data: seq<byte>) returns (ok: bool)
      requires Valid()
      modifies `writePos, txBuf
      ensures Valid() && (ok <==> |old(Queue())| < TX_SIZE)
      ensures var space := TX_SIZE - |old(Queue())|;
              Queue() == old(Queue()) + if |data| <= space then data else data[..space]
    {
      var space := TX_SIZE - (writePos - readPos);
      ok := space != 0;
      if !ok {
        return;
      }
      var n := if |data| <= space then |data| else space;
      ghost var queue := Queue();
      var i := 0;
      while i < n
        invariant 0 <= i <= n && Valid() && writePos == old(writePos) + i && Queue() == queue + data[..i]
      {
        Put(data[i]);
        assert data[..i + 1] == data[..i] + [data[i]];
        i := i + 1;
      }
      assert data[..|data|] == data;
    }

    method Interrupt(what: Interrupt)
      requires Valid()
      modifies this
      ensures Valid() && Now() == Interrupted(old(Now()), what) && pc == old(pc)
    {
      match what {
        case Tick(delivered) =>
          TransmitQueuedBytes(delivered);
        case Connect =>
          ResetSender();
          connected := true;
        case Disconnect =>
          ResetSender();
          connected := false;
      }
    }

    method Interrupts(whats: seq<Interrupt>, ghost start: State, ghost es: seq<Event>) returns (ghost es': seq<Event>)
      requires Valid() && Now() == Run(start, es)
      modifies this
      ensures Valid() && es' == es + Events(whats) && Now() == Run(start, es') && pc == old(pc)
      ensures GoesOn(es, es') && |Queue()| <= |old(Queue())|
      ensures OnlyTicks(whats) ==> accepted == old(accepted) && connected == old(connected)
      ensures whats == [] ==> Now() == old(Now())
    {
      hide Run, Interrupted;
      es' := es;
      assert Events(whats)[..0] == [];
      var i := 0;
      while i < |whats|
        invariant 0 <= i <= |whats| && Valid() && es' == es + Events(whats)[..i] && Now() == Run(start, es') && pc == old(pc)
        invariant |Queue()| <= |old(Queue())| && (i == 0 ==> Now() == old(Now()))
        invariant OnlyTicks(whats) ==> accepted == old(accepted) && connected == old(connected)
      {
        RunSnoc(start, es', Hardware(whats[i]));
        InterruptedMeans(Now(), whats[i]);
        Interrupt(whats[i]);
        es' := es' + [Hardware(whats[i])];
        i := i + 1;
      }
      assert Events(whats)[..|whats|] == Events(whats);
    }

    /** The loop at the head of `sender_transmit`: look for space, until there is some or the time is up. */
    method AwaitSpace(data: seq<byte>, waiting: seq<seq<Interrupt>>, ghost start: State, ghost es: seq<Event>)
      returns (found: bool, ghost es': seq<Event>)
      requires Valid() && Now() == Run(start, es) && pc == Waiting(data)
      modifies this
      ensures Valid() && Now() == Run(start, es') && GoesOn(es, es')
      ensures pc == if found then Writing(data) else Idle(NoMem)
      ensures found <==> |data| <= TX_SIZE - |Queue()|
      ensures !found ==> es' == es + Looks(waiting, |waiting|) + [Proceed(true)]
      ensures |data| <= TX_SIZE - |old(Queue())| ==> found && Now() == old(Now()).(pc := Writing(data))
      ensures AllTicks(waiting) ==> accepted == old(accepted) && connected == old(connected)
      ensures AllQuiet(waiting) ==> Now() == old(Now()).(pc := pc)
    {
      hide Run, Interrupted, GoesOn, Looks, OnlyTicks;
      es' := es;
      GoesOnItself(es);
      var i := 0;
      while true
        invariant 0 <= i <= |waiting| && Valid() && Now() == Run(start, es') && pc == Waiting(data)
        invariant es' == es + Looks(waiting, i) && GoesOn(es, es')
        invariant i == 0 ==> Now() == old(Now())
        invariant i > 0 ==> |data| > TX_SIZE - |old(Queue())|
        invariant AllTicks(waiting) ==> accepted == old(accepted) && connected == old(connected)
        invariant AllQuiet(waiting) ==> Now() == old(Now())
        decreases |waiting| - i
      {
        found := |data| <= TX_SIZE - (writePos - readPos);
        RunSnoc(start, es', Proceed(i == |waiting|));
        GoesOnSnoc(es, es', Proceed(i == |waiting|));
        ghost var looked := es' + [Proceed(i == |waiting|)];
        if found || i == |waiting| {
          es' := looked;
          pc := if found then Writing(data) else Idle(NoMem);
          return;
        }
        es' := Interrupts(waiting[i], start, looked);
        GoesOnTrans(es, looked, es');
        LooksUnfold(es, waiting, i);
        i := i + 1;
      }
    }

    /**
     * `sender_transmit` under a schedule of interrupts. It is a run of the steps above, from the call to its return; the
     * wait for space lasts for as long as the schedule has interrupts for it.
     */
    method Transmit(data: seq<byte>, schedule: Schedule) returns (ret: Ret, ghost es: seq<Event>)
      requires Valid() && pc.Idle?
      modifies this, txBuf
      ensures Valid() && Now() == Run(old(Now()), es) && pc == Idle(ret)
      // One call, with these data.
      ensures GoesOn([Call(data)], es)
      // Not connected: nothing changes.
      ensures !old(connected) <==> ret == InvalidState
      ensures ret == InvalidState ==> Now() == old(Now()).(pc := Idle(InvalidState))
      // Room at once and no interrupt behind the look for it: the data are queued, and the timer runs.
      ensures old(connected) && data != [] && |data| <= TX_SIZE - |old(Queue())| && QuietBehind(schedule) ==>
        && ret == Success && Queue() == old(Queue()) + data && accepted == old(accepted) + data && packets == old(packets)
        && connected && transmitting && timer == (old(timer) || !old(transmitting))
      // Given up: the time is up and there is still no room, or there is nothing to queue.
      ensures ret == NoMem && data != [] ==>
        && |data| > TX_SIZE - |Queue()|
        && es == [Call(data)] + Looks(schedule.waiting, |schedule.waiting|) + [Proceed(true)]
      ensures old(connected) && |data| > TX_SIZE - |old(Queue())|
              && AllQuiet(schedule.waiting) ==>
                ret == NoMem && Now() == old(Now()).(pc := Idle(NoMem))
      // Whatever the timer does meanwhile: accepted to the last byte, or not at all.
      ensures TicksOnly(schedule) ==> accepted == if ret == Success then old(accepted) + data else old(accepted)
    {
      hide Run, Interrupted, GoesOn, OnlyTicks, Looks;
      ghost var start, first := Now(), [Call(data)];
      es := first;
      FirstEvent(start, Call(data));
      GoesOnItself(first);
      if !connected {
        ret := InvalidState;
        pc := Idle(ret);
        return;
      }
      pc := Waiting(data);
      var found;
      found, es := AwaitSpace(data, schedule.waiting, start, es);
      if !found {
        ret := NoMem;
        return;
      }
      ghost var es1, es2, es3 := es, es, es;
      es1 := Interrupts(schedule.beforeWrite, start, es);
      GoesOnTrans(first, es, es1);
      var ok;
      ok, es2 := WriteStep(data, start, es1);
      GoesOnTrans(first, es1, es2);
      if !ok {
        ret, es := NoMem, es2;
        return;
      }
      es3 := StartIfIdle(schedule, start, es2);
      GoesOnTrans(first, es2, es3);
      ret, es := Success, es3;
    }

    /** The end of `sender_transmit`: start the timer, unless the queue is being sent already. */
    method StartIfIdle(schedule: Schedule, ghost start: State, ghost es: seq<Event>) returns (ghost es': seq<Event>)
      requires Valid() && Now() == Run(start, es) && pc == Testing
      modifies this
      ensures Valid() && Now() == Run(start, es') && pc == Idle(Success) && GoesOn(es, es')
      ensures TicksOnly(schedule) ==> accepted == old(accepted)
      ensures QuietBehind(schedule) ==>
        Now() == old(Now()).(transmitting := true, timer := timer, pc := Idle(Success))
        && timer == (old(timer) || !old(transmitting))
    {
      hide Run, Interrupted;
      es' := Interrupts(schedule.beforeTest, start, es);
      RunSnoc(start, es', Proceed(false));
      es' := es' + [Proceed(false)];
      pc := if transmitting then Idle(Success) else Setting;
      if !transmitting {
        es' := RaiseFlag(schedule.beforeSet, start, es');
        es' := StartTimer(schedule.beforeStart, start, es');
      }
    }

    method RaiseFlag(before: seq<Interrupt>, ghost start: State, ghost es: seq<Event>) returns (ghost es': seq<Event>)
      requires Valid() && Now() == Run(start, es) && pc == Setting
      modifies this
      ensures Valid() && Now() == Run(start, es') && pc == Starting && GoesOn(es, es')
      ensures OnlyTicks(before) ==> accepted == old(accepted)
      ensures before == [] ==> Now() == old(Now()).(transmitting := true, pc := Starting)
    {
      hide Run, Interrupted;
      es' := Interrupts(before, start, es);
      RunSnoc(start, es', Proceed(false));
      es' := es' + [Proceed(false)];
      transmitting := true;
      pc := Starting;
    }

    method StartTimer(before: seq<Interrupt>, ghost start: State, ghost es: seq<Event>) returns (ghost es': seq<Event>)
      requires Valid() && Now() == Run(start, es) && pc == Starting
      modifies this
      ensures Valid() && Now() == Run(start, es') && pc == Idle(Success) && GoesOn(es, es')
      ensures OnlyTicks(before) ==> accepted == old(accepted)
      ensures before == [] ==> Now() == old(Now()).(timer := true, pc := Idle(Success))
    {
      hide Run, Interrupted;
      es' := Interrupts(before, start, es);
      RunSnoc(start, es', Proceed(false));
      es' := es' + [Proceed(false)];
      timer := true;
      pc := Idle(Success);
    }

    /** The critical region of `sender_transmit`. */
    method WriteStep(data: seq<byte>, ghost start: State, ghost es: seq<Event>) returns (ok: bool, ghost es': seq<Event>)
      requires Valid() && Now() == Run(start, es) && pc == Writing(data)
      modifies this, txBuf
      ensures Valid() && Now() == Run(start, es') && GoesOn(es, es') && (ok <==> |old(Queue())| < TX_SIZE)
      ensures !ok ==> Now() == old(Now()).(pc := Idle(NoMem))
      ensures ok && |data| <= TX_SIZE - |old(Queue())| ==>
        Now() == old(Now()).(queue := old(Queue()) + data, accepted := old(accepted) + data, pc := Testing)
      ensures ok ==> pc == Testing
    {
      hide Run;
      ghost var queue, space := Queue(), TX_SIZE - |Queue()|;
      ghost var written := if |data| <= space then data else data[..space];
      RunSnoc(start, es, Proceed(false));
      es' := es + [Proceed(false)];
      ok := Enqueue(data);
      if ok {
        accepted := accepted + written;
        pc := Testing;
      } else {
        pc := Idle(NoMem);
        assert queue + written == queue;
      }
    }
  }

  lemma FirstEvent(s: State, e: Event)
    ensures Run(s, [e]) == Next(s, e)
  {
    assert [e] == [] + [e];
    RunSnoc(s, [], e);
  }
}
