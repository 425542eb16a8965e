/** The bytes of every request of the badge protocol (badge_protocol.py). */
module RequestBytes {
  import opened Bytes
  import opened Codec
  import opened Messages
  import opened MessageBytes

  datatype Stamp = Stamp(seconds: int, ms: int)

  datatype Assignment = Assignment(id: int, group: int)

  datatype Sensor = OfMicrophone | OfScan | OfAccelerometer | OfAccelerometerInterrupt | OfBattery

  /** What sampling or streaming is started with. */
  datatype Parameters =
    | Microphone(timeout: int, periodMs: int)
    | Scan(timeout: int, window: int, interval: int, duration: int, period: int, aggregationType: int)
    | Accelerometer(timeout: int, operatingMode: int, fullScale: int, datarate: int, fifoSamplingPeriodMs: int)
    | AccelerometerInterrupt(timeout: int, thresholdMg: int, minimalDurationMs: int, ignoreDurationMs: int)
    | Battery(timeout: int, batteryPeriodMs: int)

  datatype Message =
    | Status(at: Stamp, flag: byte, assignment: Assignment)
    | Start(streams: bool, at: Stamp, parameters: Parameters)
    | Stop(streams: bool, sensor: Sensor)
    | Since(sensor: Sensor, at: Stamp)
    | Identification(timeout: int)
    | Test
    | Restart

  // ---- the bytes ----

  function StartTag(p: Parameters): byte {
    match p
    case Microphone(_, _) => 2
    case Scan(_, _, _, _, _, _) => 4
    case Accelerometer(_, _, _, _, _) => 6
    case AccelerometerInterrupt(_, _, _, _) => 8
    case Battery(_, _) => 10
  }

  function StopTag(s: Sensor): byte {
    match s
    case OfMicrophone => 3
    case OfScan => 5
    case OfAccelerometer => 7
    case OfAccelerometerInterrupt => 9
    case OfBattery => 11
  }

  function SinceTag(s: Sensor): byte {
    match s
    case OfMicrophone => 12
    case OfScan => 13
    case OfAccelerometer => 14
    case OfAccelerometerInterrupt => 15
    case OfBattery => 16
  }

  /** The tags of the requests; those for streams come fifteen behind those for sampling. */
  function TagOf(m: Message): byte {
    match m
    case Status(_, _, _) => 1
    case Start(streams, _, p) => if streams then StartTag(p) + 15 else StartTag(p)
    case Stop(streams, s) => if streams then StopTag(s) + 15 else StopTag(s)
    case Since(s, _) => SinceTag(s)
    case Identification(_) => 27
    case Test => 28
    case Restart => 29
  }

  predicate StampAt(b: seq<byte>, i: nat, t: Stamp) { U32At(b, i, t.seconds) && U16At(b, i + 4, t.ms) }

  predicate ParametersAt(b: seq<byte>, p: Parameters) {
    match p
    case Microphone(timeout, period) => |b| == 11 && U16At(b, 7, timeout) && U16At(b, 9, period)
    case Scan(timeout, window, interval, duration, period, aggregation) =>
      && |b| == 18 && U16At(b, 7, timeout) && U16At(b, 9, window) && U16At(b, 11, interval) && U16At(b, 13, duration)
      && U16At(b, 15, period) && U8At(b, 17, aggregation)
    case Accelerometer(timeout, mode, scale, datarate, period) =>
      && |b| == 15 && U16At(b, 7, timeout) && U8At(b, 9, mode) && U8At(b, 10, scale) && U16At(b, 11, datarate)
      && U16At(b, 13, period)
    case AccelerometerInterrupt(timeout, threshold, minimal, ignore) =>
      |b| == 17 && U16At(b, 7, timeout) && U16At(b, 9, threshold) && U16At(b, 11, minimal) && U32At(b, 13, ignore)
    case Battery(timeout, period) => |b| == 13 && U16At(b, 7, timeout) && U32At(b, 9, period)
  }

  /** All the bytes of a request. */
  predicate MessageAt(b: seq<byte>, m: Message) {
    && U8At(b, 0, TagOf(m))
    && match m
       case Status(t, flag, a) =>
         && StampAt(b, 1, t) && U8At(b, 7, flag)
         && if flag == 0 then |b| == 8 else |b| == 11 && U16At(b, 8, a.id) && U8At(b, 10, a.group)
       case Start(_, t, p) => StampAt(b, 1, t) && ParametersAt(b, p)
       case Stop(_, _) => |b| == 1
       case Since(_, t) => |b| == 7 && StampAt(b, 1, t)
       case Identification(timeout) => |b| == 3 && U16At(b, 1, timeout)
       case Test => |b| == 1
       case Restart => |b| == 1
  }

  // ---- the same as values of the schemas ----

  function StampValue(t: Stamp): Value { Fields([Num(t.seconds), Num(t.ms)]) }

  function AssignmentValue(a: Assignment): Value { Fields([Num(a.id), Num(a.group)]) }

  function ParametersValue(t: Stamp, p: Parameters): Value {
    match p
    case Microphone(timeout, period) => Fields([StampValue(t), Num(timeout), Num(period)])
    case Scan(timeout, window, interval, duration, period, aggregation) =>
      Fields([StampValue(t), Num(timeout), Num(window), Num(interval), Num(duration), Num(period), Num(aggregation)])
    case Accelerometer(timeout, mode, scale, datarate, period) =>
      Fields([StampValue(t), Num(timeout), Num(mode), Num(scale), Num(datarate), Num(period)])
    case AccelerometerInterrupt(timeout, threshold, minimal, ignore) =>
      Fields([StampValue(t), Num(timeout), Num(threshold), Num(minimal), Num(ignore)])
    case Battery(timeout, period) => Fields([StampValue(t), Num(timeout), Num(period)])
  }

  function BodyValue(m: Message): Value {
    match m
    case Status(t, flag, a) =>
      Fields([StampValue(t), Flagged(flag, if flag == 0 then Unit else AssignmentValue(a))])
    case Start(_, t, p) => ParametersValue(t, p)
    case Stop(_, _) => Fields([])
    case Since(_, t) => Fields([StampValue(t)])
    case Identification(timeout) => Fields([Num(timeout)])
    case Test => Fields([])
    case Restart => Fields([])
  }

  function MessageValue(m: Message): Value { Tagged(TagOf(m), BodyValue(m)) }

  // ---- parts ----

  lemma StampStands(b: seq<byte>, i: nat, j: nat, t: Stamp)
    ensures Stands(Timestamp(), StampValue(t), b, i, j) <==> j == i + 6 && StampAt(b, i, t)
    ensures Sized(Timestamp(), StampValue(t), 6)
  {
    hide Stands, Sized, Fields, Struct, U32At;
    var fs, vs, at := [U32, U16], [Num(t.seconds), Num(t.ms)], [i, i + 4, i + 6];
    Sizes();
    assert Sized(fs[0], vs[0], 4) && Sized(fs[1], vs[1], 2);
    StructStands(fs, vs, b, at, j);
    StructSized(fs, vs, at);
    U32Stands(b, i, i + 4, t.seconds);
    U16Stands(b, i + 4, i + 6, t.ms);
    hide U16At;
    TwoStand(fs, vs, b, at);
  }

  // ---- requests with parameters ----

  lemma MicrophoneStands(b: seq<byte>, t: Stamp, p: Parameters)
    requires p.Microphone?
    ensures Stands(StartMicrophone(), ParametersValue(t, p), b, 1, |b|) <==> StampAt(b, 1, t) && ParametersAt(b, p)
  {
    hide StampAt, Stands, Sized, Fields, Struct, Timestamp, StampValue, U8At, U32At;
    var fs := [Timestamp(), U16, U16];
    var vs := [StampValue(t), Num(p.timeout), Num(p.periodMs)];
    var at: seq<nat> := [1, 7, 9, 11];
    Leaves(b);
    Sizes();
    StampStands(b, 1, 7, t);
    StructStands(fs, vs, b, at, |b|);
    ThreeStand(fs, vs, b, at);
  }

  lemma ScanStands(b: seq<byte>, t: Stamp, p: Parameters)
    requires p.Scan?
    ensures Stands(StartScan(), ParametersValue(t, p), b, 1, |b|) <==> StampAt(b, 1, t) && ParametersAt(b, p)
  {
    hide StampAt, Stands, Sized, Fields, Struct, Timestamp, StampValue, U8At, U32At;
    var fs := [Timestamp(), U16, U16, U16, U16, U16, U8];
    var vs := [StampValue(t), Num(p.timeout), Num(p.window), Num(p.interval), Num(p.duration), Num(p.period),
      Num(p.aggregationType)];
    var at: seq<nat> := [1, 7, 9, 11, 13, 15, 17, 18];
    Leaves(b);
    Sizes();
    StampStands(b, 1, 7, t);
    StructStands(fs, vs, b, at, |b|);
    SevenStand(fs, vs, b, at);
  }

  lemma AccelerometerStands(b: seq<byte>, t: Stamp, p: Parameters)
    requires p.Accelerometer?
    ensures Stands(StartAccelerometer(), ParametersValue(t, p), b, 1, |b|) <==> StampAt(b, 1, t) && ParametersAt(b, p)
  {
    hide StampAt, Stands, Sized, Fields, Struct, Timestamp, StampValue, U8At, U32At;
    var fs := [Timestamp(), U16, U8, U8, U16, U16];
    var vs := [StampValue(t), Num(p.timeout), Num(p.operatingMode), Num(p.fullScale), Num(p.datarate),
      Num(p.fifoSamplingPeriodMs)];
    var at: seq<nat> := [1, 7, 9, 10, 11, 13, 15];
    Leaves(b);
    Sizes();
    StampStands(b, 1, 7, t);
    StructStands(fs, vs, b, at, |b|);
    SixStand(fs, vs, b, at);
  }

  lemma AccelerometerInterruptStands(b: seq<byte>, t: Stamp, p: Parameters)
    requires p.AccelerometerInterrupt?
    ensures Stands(StartAccelerometerInterrupt(), ParametersValue(t, p), b, 1, |b|) <==> StampAt(b, 1, t) && ParametersAt(b, p)
  {
    hide StampAt, Stands, Sized, Fields, Struct, Timestamp, StampValue, U8At, U32At;
    var fs := [Timestamp(), U16, U16, U16, U32];
    var vs := [StampValue(t), Num(p.timeout), Num(p.thresholdMg), Num(p.minimalDurationMs), Num(p.ignoreDurationMs)];
    var at: seq<nat> := [1, 7, 9, 11, 13, 17];
    Leaves(b);
    Sizes();
    StampStands(b, 1, 7, t);
    StructStands(fs, vs, b, at, |b|);
    FiveStand(fs, vs, b, at);
  }

  lemma BatteryStands(b: seq<byte>, t: Stamp, p: Parameters)
    requires p.Battery?
    ensures Stands(StartBattery(), ParametersValue(t, p), b, 1, |b|) <==> StampAt(b, 1, t) && ParametersAt(b, p)
  {
    hide StampAt, Stands, Sized, Fields, Struct, Timestamp, StampValue, U8At, U32At;
    var fs := [Timestamp(), U16, U32];
    var vs := [StampValue(t), Num(p.timeout), Num(p.batteryPeriodMs)];
    var at: seq<nat> := [1, 7, 9, 13];
    Leaves(b);
    Sizes();
    StampStands(b, 1, 7, t);
    StructStands(fs, vs, b, at, |b|);
    ThreeStand(fs, vs, b, at);
  }

  // ---- the other requests ----

  lemma OneStands(s: Schema, v: Value, w: nat, b: seq<byte>, i: nat, j: nat)
    requires Sized(s, v, w)
    ensures Stands(Struct([s]), Fields([v]), b, i, j) <==> j == i + w <= |b| && Stands(s, v, b, i, i + w)
    ensures Sized(Struct([s]), Fields([v]), w)
  {
    hide Stands, Sized, Fields, Struct;
    StructStands([s], [v], b, [i, i + w], j);
    StructSized([s], [v], [i, i + w]);
  }

  lemma NoneStands(b: seq<byte>, i: nat, j: nat)
    ensures Stands(Bare(), Fields([]), b, i, j) <==> j == i <= |b|
  {
    StructStands([], [], b, [i], j);
  }

  lemma SinceStands(b: seq<byte>, t: Stamp)
    ensures Stands(DataSince(), Fields([StampValue(t)]), b, 1, |b|) <==> |b| == 7 && StampAt(b, 1, t)
  {
    hide Stands, Sized, Fields, Struct, Timestamp, StampValue;
    StampStands(b, 1, 7, t);
    OneStands(Timestamp(), StampValue(t), 6, b, 1, |b|);
  }

  lemma IdentificationStands(b: seq<byte>, timeout: int)
    ensures Stands(Identify(), Fields([Num(timeout)]), b, 1, |b|) <==> |b| == 3 && U16At(b, 1, timeout)
  {
    hide Stands, Sized, Fields, Struct;
    Sizes();
    assert Sized(U16, Num(timeout), 2);
    U16Stands(b, 1, 3, timeout);
    OneStands(U16, Num(timeout), 2, b, 1, |b|);
  }

  lemma AssignmentStands(b: seq<byte>, i: nat, j: nat, a: Assignment)
    ensures Stands(BadgeAssignement(), AssignmentValue(a), b, i, j)
       <==> j == i + 3 && U16At(b, i, a.id) && U8At(b, i + 2, a.group)
    ensures Sized(BadgeAssignement(), AssignmentValue(a), 3)
  {
    hide Stands, Sized, Fields, Struct;
    var fs, vs, at := [U16, U8], [Num(a.id), Num(a.group)], [i, i + 2, i + 3];
    Sizes();
    assert Sized(fs[0], vs[0], 2) && Sized(fs[1], vs[1], 1);
    StructStands(fs, vs, b, at, j);
    StructSized(fs, vs, at);
    U16Stands(b, i, i + 2, a.id);
    U8Stands(b, i + 2, i + 3, a.group);
    hide U16At, U8At;
    TwoStand(fs, vs, b, at);
  }

  lemma StatusStands(b: seq<byte>, t: Stamp, flag: byte, a: Assignment)
    ensures Stands(StatusRequest(), BodyValue(Status(t, flag, a)), b, 1, |b|)
       <==> && StampAt(b, 1, t) && U8At(b, 7, flag)
            && if flag == 0 then |b| == 8 else |b| == 11 && U16At(b, 8, a.id) && U8At(b, 10, a.group)
  {
    hide Stands, Sized, Fields, Struct, Timestamp, StampValue, BadgeAssignement, AssignmentValue;
    var v := if flag == 0 then Unit else AssignmentValue(a);
    var fs, vs := [Timestamp(), Optional(BadgeAssignement())], [StampValue(t), Flagged(flag, v)];
    var end := if flag == 0 then 8 else 11;
    var at: seq<nat> := [1, 7, end];
    StampStands(b, 1, 7, t);
    AssignmentStands(b, 8, 11, a);
    OptionSized(BadgeAssignement(), flag, v, 3);
    StructStands(fs, vs, b, at, |b|);
    TwoStand(fs, vs, b, at);
    OptionStands(BadgeAssignement(), flag, v, b, 7, end);
    hide StampAt, U16At;
  }

  lemma OptionSized(item: Schema, flag: byte, v: Value, w: nat)
    requires flag != 0 ==> Sized(item, v, w)
    ensures Sized(Optional(item), Flagged(flag, v), if flag == 0 then 1 else 1 + w)
  {
    hide Encode, Encodable;
    OptionEncodes(item, flag, v);
  }

  // ---- the tags ----

  /** What the tag of a request stands for. */
  function BodySchema(m: Message): Schema {
    match m
    case Status(_, _, _) => StatusRequest()
    case Start(_, _, p) =>
      (match p
       case Microphone(_, _) => StartMicrophone()
       case Scan(_, _, _, _, _, _) => StartScan()
       case Accelerometer(_, _, _, _, _) => StartAccelerometer()
       case AccelerometerInterrupt(_, _, _, _) => StartAccelerometerInterrupt()
       case Battery(_, _) => StartBattery())
    case Since(_, _) => DataSince()
    case Identification(_) => Identify()
    case _ => Bare()
  }

  lemma TagStandsFor(m: Message)
    ensures 0 < TagOf(m) <= 29 && |Requests()| == 29 && Requests()[TagOf(m) - 1] == BodySchema(m)
  {
    hide Struct;
  }

  lemma BodyStands(b: seq<byte>, m: Message)
    ensures Stands(BodySchema(m), BodyValue(m), b, 1, |b|) && U8At(b, 0, TagOf(m)) <==> MessageAt(b, m)
  {
    hide Stands, Fields, Struct, StampValue, AssignmentValue, StampAt, U16At, U8At, U32At, Timestamp, TagOf, ParametersAt,
      StatusRequest, StartMicrophone, StartScan, StartAccelerometer, StartAccelerometerInterrupt, StartBattery,
        DataSince, Identify;
    match m {
      case Status(t, flag, a) => StatusStands(b, t, flag, a);
      case Start(_, t, p) =>
        match p {
          case Microphone(_, _) => MicrophoneStands(b, t, p);
          case Scan(_, _, _, _, _, _) => ScanStands(b, t, p);
          case Accelerometer(_, _, _, _, _) => AccelerometerStands(b, t, p);
          case AccelerometerInterrupt(_, _, _, _) => AccelerometerInterruptStands(b, t, p);
          case Battery(_, _) => BatteryStands(b, t, p);
        }
      case Since(_, t) => SinceStands(b, t);
      case Identification(timeout) => IdentificationStands(b, timeout);
      case _ => NoneStands(b, 1, |b|);
    }
  }

  /**
   * The encoder accepts a request and writes exactly the bytes in which its tag and each of its fields stand at their
   * places. So it refuses exactly the requests with a number that does not fit its place.
   */
  lemma RequestBytes(m: Message, b: seq<byte>)
    ensures Encodable(Request(), MessageValue(m)) && b == Encode(Request(), MessageValue(m)) <==> MessageAt(b, m)
  {
    hide *;
    RequestIs(m);
    TagStandsFor(m);
    ChoiceStands(Requests(), TagOf(m), BodyValue(m), b, |b|);
    WholeStands(Request(), MessageValue(m), b);
    BodyStands(b, m);
  }

  lemma RequestIs(m: Message)
    ensures Request() == Choice(OneOf(Requests())) && MessageValue(m) == Tagged(TagOf(m), BodyValue(m))
  {
  }

  lemma PlainNumbers()
    ensures Plain(U8) && Plain(I8) && Plain(U16) && Plain(I16) && Plain(U32) && Plain(F32)
    ensures Timestamp() == Struct([U32, U16])
  {
  }

  lemma PlainParts()
    ensures Plain(Timestamp()) && Plain(BadgeAssignement()) && Plain(Bare()) && Plain(DataSince()) && Plain(Identify())
    ensures Plain(StartMicrophone()) && Plain(StartScan()) && Plain(StartAccelerometer())
    ensures Plain(StartAccelerometerInterrupt()) && Plain(StartBattery())
  {
    hide Plain, Struct, Timestamp;
    PlainNumbers();
    PlainStruct([U32, U16]);
    PlainStruct([U16, U8]);
    PlainStruct([]);
    PlainStruct([Timestamp()]);
    PlainStruct([U16]);
    PlainStruct([Timestamp(), U16, U16]);
    PlainStruct([Timestamp(), U16, U16, U16, U16, U16, U8]);
    PlainStruct([Timestamp(), U16, U8, U8, U16, U16]);
    PlainStruct([Timestamp(), U16, U16, U16, U32]);
    PlainStruct([Timestamp(), U16, U32]);
  }

  lemma StatusExactly(t: Stamp, flag: byte, a: Assignment)
    ensures Exactly(StatusRequest(), BodyValue(Status(t, flag, a)))
  {
    hide Fields, Struct, Encodable, Timestamp, BadgeAssignement, StampValue, AssignmentValue;
    PlainParts();
    hide Plain;
    var v := if flag == 0 then Unit else AssignmentValue(a);
    var fs, vs := [Timestamp(), Optional(BadgeAssignement())], [StampValue(t), Flagged(flag, v)];
    PlainIsExact(Timestamp(), StampValue(t));
    PlainIsExact(BadgeAssignement(), v);
    OptionExactly(BadgeAssignement(), flag, v);
    StructExactly(fs, vs);
  }

  lemma OptionExactly(item: Schema, flag: byte, v: Value)
    requires if flag == 0 then v.Unit? else Exactly(item, v)
    ensures Exactly(Optional(item), Flagged(flag, v))
  {
  }

  lemma PlainBody(m: Message)
    requires !m.Status?
    ensures Plain(BodySchema(m))
  {
    PlainParts();
    hide Plain, StartMicrophone, StartScan, StartAccelerometer, StartAccelerometerInterrupt, StartBattery, DataSince,
      Identify, Bare;
  }

  lemma ValueIsExact(m: Message)
    ensures Exactly(Request(), MessageValue(m))
  {
    hide *;
    RequestIs(m);
    TagStandsFor(m);
    if m.Status? {
      StatusExactly(m.at, m.flag, m.assignment);
      SchemaOfStatus(m);
    } else {
      PlainBody(m);
      PlainIsExact(BodySchema(m), BodyValue(m));
    }
    ChoiceExactly(Requests(), TagOf(m), BodyValue(m));
  }

  lemma SchemaOfStatus(m: Message)
    requires m.Status?
    ensures BodySchema(m) == StatusRequest() && m == Status(m.at, m.flag, m.assignment)
  {
  }

  /** So does the decoder: it makes a request of a buffer exactly if all of its bytes are those of the request. */
  lemma RequestDecodes(m: Message, b: seq<byte>)
    ensures Decode(Request(), b) == Decoded(MessageValue(m), []) <==> MessageAt(b, m)
  {
    hide *;
    RequestBytes(m, b);
    ValueIsExact(m);
    DecodesIff(Request(), MessageValue(m), b);
  }

  /** The data of the microphone since 70000 seconds and 5 milliseconds. */
  lemma SinceBytes()
    ensures MessageAt([0x0C, 0x00, 0x01, 0x11, 0x70, 0x00, 0x05], Since(OfMicrophone, Stamp(70000, 5)))
  {
  }
}
