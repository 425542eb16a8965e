/** The bytes of every response of the badge protocol (badge_protocol.py). */
module ResponseBytes {
  import opened Bytes
  import opened Codec
  import opened Messages
  import opened MessageBytes
  import opened RequestBytes

  datatype Device = Device(id: int, rssi: int)

  datatype Sighting = Sighting(device: Device, count: int)

  datatype Acceleration = Acceleration(x: int, y: int, z: int)

  /** A float is its four bytes. */
  datatype Answer =
    | StatusIs(clock: int, microphone: int, scan: int, accelerometer: int, interrupt: int, battery: int, at: Stamp,
               voltage: seq<byte>)
    | HasStarted(sensor: Sensor, at: Stamp)
    | Samples(last: int, at: Stamp, periodMs: int, volumes: seq<int>)
    | Sightings(last: int, at: Stamp, sightings: seq<Sighting>)
    | Accelerations(last: int, at: Stamp, accelerations: seq<int>)
    | Interrupt(last: int, at: Stamp)
    | Voltage(last: int, at: Stamp, voltage: seq<byte>)
    | Streamed(at: Stamp, voltages: seq<seq<byte>>, volumes: seq<int>, devices: seq<Device>, raw: seq<Acceleration>,
               interrupts: seq<Stamp>)
    | Tested(failed: int)

  // ---- the bytes ----

  function StartedTag(s: Sensor): byte {
    match s
    case OfMicrophone => 2
    case OfScan => 3
    case OfAccelerometer => 4
    case OfAccelerometerInterrupt => 5
    case OfBattery => 6
  }

  function AnswerTag(m: Answer): byte {
    match m
    case StatusIs(_, _, _, _, _, _, _, _) => 1
    case HasStarted(s, _) => StartedTag(s)
    case Samples(_, _, _, _) => 7
    case Sightings(_, _, _) => 8
    case Accelerations(_, _, _) => 9
    case Interrupt(_, _) => 10
    case Voltage(_, _, _) => 11
    case Streamed(_, _, _, _, _, _) => 12
    case Tested(_) => 13
  }

  predicate DeviceAt(b: seq<byte>, i: nat, d: Device) { U16At(b, i, d.id) && I8At(b, i + 2, d.rssi) }

  predicate SightingAt(b: seq<byte>, i: nat, s: Sighting) { DeviceAt(b, i, s.device) && U8At(b, i + 3, s.count) }

  predicate AccelerationAt(b: seq<byte>, i: nat, a: Acceleration) {
    I16At(b, i, a.x) && I16At(b, i + 2, a.y) && I16At(b, i + 4, a.z)
  }

  predicate U8sAt(b: seq<byte>, i: nat, ns: seq<int>) {
    U8At(b, i, |ns|) && forall k :: 0 <= k < |ns| ==> U8At(b, i + 1 + k, ns[k])
  }

  predicate U16sAt(b: seq<byte>, i: nat, ns: seq<int>) {
    U8At(b, i, |ns|) && forall k :: 0 <= k < |ns| ==> U16At(b, i + 1 + 2 * k, ns[k])
  }

  predicate F32sAt(b: seq<byte>, i: nat, vs: seq<seq<byte>>) {
    U8At(b, i, |vs|) && forall k :: 0 <= k < |vs| ==> F32At(b, i + 1 + 4 * k, vs[k])
  }

  predicate DevicesAt(b: seq<byte>, i: nat, ds: seq<Device>) {
    U8At(b, i, |ds|) && forall k :: 0 <= k < |ds| ==> DeviceAt(b, i + 1 + 3 * k, ds[k])
  }

  predicate SightingsAt(b: seq<byte>, i: nat, ss: seq<Sighting>) {
    U8At(b, i, |ss|) && forall k :: 0 <= k < |ss| ==> SightingAt(b, i + 1 + 4 * k, ss[k])
  }

  predicate AccelerationsAt(b: seq<byte>, i: nat, xs: seq<Acceleration>) {
    U8At(b, i, |xs|) && forall k :: 0 <= k < |xs| ==> AccelerationAt(b, i + 1 + 6 * k, xs[k])
  }

  predicate StampsAt(b: seq<byte>, i: nat, ts: seq<Stamp>) {
    U8At(b, i, |ts|) && forall k :: 0 <= k < |ts| ==> StampAt(b, i + 1 + 6 * k, ts[k])
  }

  /** All the bytes of a response. */
  predicate AnswerAt(b: seq<byte>, m: Answer) {
    && U8At(b, 0, AnswerTag(m))
    && match m
       case StatusIs(clock, microphone, scan, accelerometer, interrupt, battery, t, voltage) =>
         && |b| == 17 && U8At(b, 1, clock) && U8At(b, 2, microphone) && U8At(b, 3, scan) && U8At(b, 4, accelerometer)
         && U8At(b, 5, interrupt) && U8At(b, 6, battery) && StampAt(b, 7, t) && F32At(b, 13, voltage)
       case HasStarted(_, t) => |b| == 7 && StampAt(b, 1, t)
       case Samples(last, t, period, ns) =>
         |b| == 11 + |ns| && U8At(b, 1, last) && StampAt(b, 2, t) && U16At(b, 8, period) && U8sAt(b, 10, ns)
       case Sightings(last, t, ss) => |b| == 9 + 4 * |ss| && U8At(b, 1, last) && StampAt(b, 2, t) && SightingsAt(b, 8, ss)
       case Accelerations(last, t, ns) => |b| == 9 + 2 * |ns| && U8At(b, 1, last) && StampAt(b, 2, t) && U16sAt(b, 8, ns)
       case Interrupt(last, t) => |b| == 8 && U8At(b, 1, last) && StampAt(b, 2, t)
       case Voltage(last, t, voltage) => |b| == 12 && U8At(b, 1, last) && StampAt(b, 2, t) && F32At(b, 8, voltage)
       case Streamed(t, vs, ns, ds, xs, ts) =>
         var i2, i3 := 8 + 4 * |vs|, 9 + 4 * |vs| + |ns|;
         var i4 := i3 + 1 + 3 * |ds|;
         var i5 := i4 + 1 + 6 * |xs|;
         && |b| == i5 + 1 + 6 * |ts| && StampAt(b, 1, t) && F32sAt(b, 7, vs) && U8sAt(b, i2, ns) && DevicesAt(b, i3, ds)
         && AccelerationsAt(b, i4, xs) && StampsAt(b, i5, ts)
       case Tested(failed) => |b| == 2 && U8At(b, 1, failed)
  }

  // ---- the same as values of the schemas ----

  function NumberValue(n: int): Value { Fields([Num(n)]) }
  function VoltageValue(raw: seq<byte>): Value { Fields([Raw(raw)]) }
  function DeviceValue(d: Device): Value { Fields([Num(d.id), Num(d.rssi)]) }
  function SightingValue(s: Sighting): Value { Fields([DeviceValue(s.device), Num(s.count)]) }
  function RawValue(a: Acceleration): Value { Fields([Items([Num(a.x), Num(a.y), Num(a.z)])]) }

  /** The values of the parts of a list. */
  function ListValue<T>(xs: seq<T>, f: T -> Value): (r: Value)
    ensures r.Items? && |r.items| == |xs| && forall k :: 0 <= k < |xs| ==> r.items[k] == f(xs[k])
  {
    Items(seq(|xs|, k requires 0 <= k < |xs| => f(xs[k])))
  }

  function VoltagesValue(xs: seq<seq<byte>>): Value { ListValue(xs, (x: seq<byte>) => Fields([VoltageValue(x)])) }
  function VolumesValue(xs: seq<int>): Value { ListValue(xs, (x: int) => Fields([NumberValue(x)])) }
  function DevicesValue(xs: seq<Device>): Value { ListValue(xs, (x: Device) => Fields([DeviceValue(x)])) }
  function RawsValue(xs: seq<Acceleration>): Value { ListValue(xs, (x: Acceleration) => Fields([RawValue(x)])) }
  function StampsValue(xs: seq<Stamp>): Value { ListValue(xs, (x: Stamp) => Fields([StampValue(x)])) }

  function AnswerBody(m: Answer): Value {
    match m
    case StatusIs(clock, microphone, scan, accelerometer, interrupt, battery, t, voltage) =>
      Fields([Num(clock), Num(microphone), Num(scan), Num(accelerometer), Num(interrupt), Num(battery), StampValue(t),
              VoltageValue(voltage)])
    case HasStarted(_, t) => Fields([StampValue(t)])
    case Samples(last, t, period, ns) => Fields([Num(last), StampValue(t), Num(period), ListValue(ns, NumberValue)])
    case Sightings(last, t, ss) => Fields([Num(last), StampValue(t), ListValue(ss, SightingValue)])
    case Accelerations(last, t, ns) => Fields([Num(last), StampValue(t), ListValue(ns, NumberValue)])
    case Interrupt(last, t) => Fields([Num(last), StampValue(t)])
    case Voltage(last, t, voltage) => Fields([Num(last), StampValue(t), VoltageValue(voltage)])
    case Streamed(t, vs, ns, ds, xs, ts) =>
      Fields([StampValue(t), VoltagesValue(vs), VolumesValue(ns), DevicesValue(ds), RawsValue(xs), StampsValue(ts)])
    case Tested(failed) => Fields([Num(failed)])
  }

  function AnswerValue(m: Answer): Value { Tagged(AnswerTag(m), AnswerBody(m)) }

  // ---- parts ----

  lemma VoltageStands(b: seq<byte>, i: nat, j: nat, raw: seq<byte>)
    ensures Stands(BatteryData(), VoltageValue(raw), b, i, j) <==> j == i + 4 && F32At(b, i, raw)
    ensures Sized(BatteryData(), VoltageValue(raw), 4)
  {
    hide Stands, Sized, Fields, Struct;
    Sizes();
    assert Sized(F32, Raw(raw), 4);
    OneStands(F32, Raw(raw), 4, b, i, j);
    F32Stands(b, i, i + 4, raw);
  }

  lemma VolumeStands(b: seq<byte>, i: nat, j: nat, n: int)
    ensures Stands(MicrophoneData(), NumberValue(n), b, i, j) <==> j == i + 1 && U8At(b, i, n)
    ensures Sized(MicrophoneData(), NumberValue(n), 1)
  {
    hide Stands, Sized, Fields, Struct;
    Sizes();
    assert Sized(U8, Num(n), 1);
    OneStands(U8, Num(n), 1, b, i, j);
    U8Stands(b, i, i + 1, n);
  }

  lemma AccelerationStands(b: seq<byte>, i: nat, j: nat, n: int)
    ensures Stands(AccelerometerData(), NumberValue(n), b, i, j) <==> j == i + 2 && U16At(b, i, n)
    ensures Sized(AccelerometerData(), NumberValue(n), 2)
  {
    hide Stands, Sized, Fields, Struct;
    Sizes();
    assert Sized(U16, Num(n), 2);
    OneStands(U16, Num(n), 2, b, i, j);
    U16Stands(b, i, i + 2, n);
  }

  lemma DeviceStands(b: seq<byte>, i: nat, j: nat, d: Device)
    ensures Stands(ScanDevice(), DeviceValue(d), b, i, j) <==> j == i + 3 && DeviceAt(b, i, d)
    ensures Sized(ScanDevice(), DeviceValue(d), 3)
  {
    hide Stands, Sized, Fields, Struct;
    var fs, vs, at := [U16, I8], [Num(d.id), Num(d.rssi)], [i, i + 2, i + 3];
    Sizes();
    assert Sized(fs[0], vs[0], 2) && Sized(fs[1], vs[1], 1);
    StructStands(fs, vs, b, at, j);
    StructSized(fs, vs, at);
    U16Stands(b, i, i + 2, d.id);
    I8Stands(b, i + 2, i + 3, d.rssi);
    hide U16At;
    TwoStand(fs, vs, b, at);
  }

  lemma SightingStands(b: seq<byte>, i: nat, j: nat, s: Sighting)
    ensures Stands(ScanResultData(), SightingValue(s), b, i, j) <==> j == i + 4 && SightingAt(b, i, s)
    ensures Sized(ScanResultData(), SightingValue(s), 4)
  {
    hide Stands, Sized, Fields, Struct, ScanDevice, DeviceValue;
    var fs, vs, at := [ScanDevice(), U8], [DeviceValue(s.device), Num(s.count)], [i, i + 3, i + 4];
    Sizes();
    DeviceStands(b, i, i + 3, s.device);
    assert Sized(fs[0], vs[0], 3) && Sized(fs[1], vs[1], 1);
    StructStands(fs, vs, b, at, j);
    StructSized(fs, vs, at);
    U8Stands(b, i + 3, i + 4, s.count);
    hide DeviceAt;
    TwoStand(fs, vs, b, at);
  }

  lemma ThreeTimesEncodes(vs: seq<Value>)
    requires |vs| == 3
    ensures Encodable(Times(3, I16), Items(vs)) <==> AllEncodable(I16, vs)
    ensures AllEncodable(I16, vs) ==> Encode(Times(3, I16), Items(vs)) == EncodeAll(I16, vs)
  {
    assert vs[..3] == vs;
    hide EncodeAll;
  }

  lemma RawStands(b: seq<byte>, i: nat, j: nat, a: Acceleration)
    ensures Stands(AccelerometerRawData(), RawValue(a), b, i, j) <==> j == i + 6 && AccelerationAt(b, i, a)
    ensures Sized(AccelerometerRawData(), RawValue(a), 6)
  {
    hide Stands, Fields, Struct;
    var vs := [Num(a.x), Num(a.y), Num(a.z)];
    Sizes();
    assert forall k :: 0 <= k < |vs| ==> Sized(I16, vs[k], 2);
    hide Sized;
    ThreeTimesStand(b, i, vs);
    OneStands(Times(3, I16), Items(vs), 6, b, i, j);
    I16Stands(b, i, i + 2, a.x);
    I16Stands(b, i + 2, i + 4, a.y);
    I16Stands(b, i + 4, i + 6, a.z);
  }

  lemma ThreeTimesStand(b: seq<byte>, i: nat, vs: seq<Value>)
    requires |vs| == 3 && forall k :: 0 <= k < |vs| ==> Sized(I16, vs[k], 2)
    ensures Stands(Times(3, I16), Items(vs), b, i, i + 6)
       <==> Stands(I16, vs[0], b, i, i + 2) && Stands(I16, vs[1], b, i + 2, i + 4) && Stands(I16, vs[2], b, i + 4, i + 6)
    ensures Sized(Times(3, I16), Items(vs), 6)
  {
    hide Encode, Encodable, EncodeAll, AllEncodable;
    ThreeTimesEncodes(vs);
    RunIsAll(I16, vs, 2, b, i, i + 6);
    assert Place(i, 2, 0) == i && Place(i, 2, 1) == i + 2 && Place(i, 2, 2) == i + 4 && Place(i, 2, 3) == i + 6;
    if AllEncodable(I16, vs) {
      AllSized(I16, vs, 2);
    }
    hide Stands, Place;
    ThreePlaces(b, i, vs);
  }

  lemma ThreePlaces(b: seq<byte>, i: nat, vs: seq<Value>)
    requires |vs| == 3
    ensures RunStands(I16, vs, b, i, 2)
       <==> && Stands(I16, vs[0], b, Place(i, 2, 0), Place(i, 2, 1)) && Stands(I16, vs[1], b, Place(i, 2, 1), Place(i, 2, 2))
            && Stands(I16, vs[2], b, Place(i, 2, 2), Place(i, 2, 3))
  {
    hide Stands, Place;
  }

  // ---- lists of parts ----

  /** Items that stand where `at` says, each of `w` bytes, stand in a list one behind the other. */
  lemma PartsStand<T>(item: Schema, w: nat, f: T -> Value, xs: seq<T>, at: (nat, T) -> bool, b: seq<byte>, i: nat, j: nat)
    requires forall k, p: nat, q: nat {:trigger Stands(item, f(xs[k]), b, p, q)} :: 0 <= k < |xs| ==>
               (Stands(item, f(xs[k]), b, p, q) <==> q == p + w && at(p, xs[k]))
    requires forall k :: 0 <= k < |xs| ==> Sized(item, f(xs[k]), w)
    ensures Stands(Counted(item), ListValue(xs, f), b, i, j)
       <==> && U8At(b, i, |xs|) && j == Place(i + 1, w, |xs|) <= |b|
            && forall k :: 0 <= k < |xs| ==> at(Place(i + 1, w, k), xs[k])
    ensures Sized(Counted(item), ListValue(xs, f), 1 + Place(0, w, |xs|))
  {
    hide Stands, Sized, Place;
    var vs := ListValue(xs, f).items;
    assert forall k :: 0 <= k < |vs| ==> vs[k] == f(xs[k]);
    ListStands(item, vs, w, b, i, j);
    ListSized(item, vs, w);
    PlacesStand(item, w, f, xs, at, b, i + 1, vs);
  }

  lemma PlacesStand<T>(
    item: Schema, w: nat, f: T -> Value, xs: seq<T>, at: (nat, T) -> bool, b: seq<byte>, i: nat, vs: seq<Value>)
    requires |vs| == |xs| && forall k :: 0 <= k < |vs| ==> vs[k] == f(xs[k])
    requires forall k, p: nat, q: nat {:trigger Stands(item, f(xs[k]), b, p, q)} :: 0 <= k < |xs| ==>
               (Stands(item, f(xs[k]), b, p, q) <==> q == p + w && at(p, xs[k]))
    ensures RunStands(item, vs, b, i, w) <==> forall k :: 0 <= k < |xs| ==> at(Place(i, w, k), xs[k])
  {
    hide Stands, Place;
    forall k | 0 <= k < |xs|
      ensures Stands(item, vs[k], b, Place(i, w, k), Place(i, w, k + 1)) <==> at(Place(i, w, k), xs[k])
    {
      PlaceNext(i, w, k);
      assert Stands(item, f(xs[k]), b, Place(i, w, k), Place(i, w, k + 1))
        <==> Place(i, w, k + 1) == Place(i, w, k) + w && at(Place(i, w, k), xs[k]);
    }
    if RunStands(item, vs, b, i, w) {
      forall k | 0 <= k < |xs| ensures at(Place(i, w, k), xs[k]) {
        assert Stands(item, vs[k], b, Place(i, w, k), Place(i, w, k + 1));
      }
    }
    if forall k :: 0 <= k < |xs| ==> at(Place(i, w, k), xs[k]) {
      forall k | 0 <= k < |vs| ensures Stands(item, vs[k], b, Place(i, w, k), Place(i, w, k + 1)) {
        assert at(Place(i, w, k), xs[k]);
      }
    }
  }

  lemma VolumeListStands(b: seq<byte>, i: nat, j: nat, xs: seq<int>)
    ensures Stands(Counted(MicrophoneData()), ListValue(xs, NumberValue), b, i, j)
       <==> j == i + 1 + |xs| <= |b| && U8sAt(b, i, xs)
    ensures Sized(Counted(MicrophoneData()), ListValue(xs, NumberValue), 1 + |xs|)
  {
    hide Stands, Sized, Fields, Struct;
    var f := NumberValue;
    forall x: int, p: nat, q: nat ensures Stands(MicrophoneData(), f(x), b, p, q) <==> q == p + 1 && U8At(b, p, x) {
      VolumeStands(b, p, q, x);
    }
    forall x: int ensures Sized(MicrophoneData(), f(x), 1) {
      VolumeStands(b, 0, 0, x);
    }
    PartsStand(MicrophoneData(), 1, f, xs, (p, x) => U8At(b, p, x), b, i, j);
  }

  lemma AccelerationListStands(b: seq<byte>, i: nat, j: nat, xs: seq<int>)
    ensures Stands(Counted(AccelerometerData()), ListValue(xs, NumberValue), b, i, j)
       <==> j == i + 1 + 2 * |xs| <= |b| && U16sAt(b, i, xs)
    ensures Sized(Counted(AccelerometerData()), ListValue(xs, NumberValue), 1 + 2 * |xs|)
  {
    hide Stands, Sized, Fields, Struct;
    var f := NumberValue;
    forall x: int, p: nat, q: nat ensures Stands(AccelerometerData(), f(x), b, p, q) <==> q == p + 2 && U16At(b, p, x) {
      AccelerationStands(b, p, q, x);
    }
    forall x: int ensures Sized(AccelerometerData(), f(x), 2) {
      AccelerationStands(b, 0, 0, x);
    }
    PartsStand(AccelerometerData(), 2, f, xs, (p, x) => U16At(b, p, x), b, i, j);
  }

  lemma SightingListStands(b: seq<byte>, i: nat, j: nat, xs: seq<Sighting>)
    ensures Stands(Counted(ScanResultData()), ListValue(xs, SightingValue), b, i, j)
       <==> j == i + 1 + 4 * |xs| <= |b| && SightingsAt(b, i, xs)
    ensures Sized(Counted(ScanResultData()), ListValue(xs, SightingValue), 1 + 4 * |xs|)
  {
    hide Stands, Sized, Fields, Struct;
    var f := SightingValue;
    forall x: Sighting, p: nat, q: nat ensures Stands(ScanResultData(), f(x), b, p, q) <==> q == p + 4 && SightingAt(b,
      p, x) {
      SightingStands(b, p, q, x);
    }
    forall x: Sighting ensures Sized(ScanResultData(), f(x), 4) {
      SightingStands(b, 0, 0, x);
    }
    PartsStand(ScanResultData(), 4, f, xs, (p, x) => SightingAt(b, p, x), b, i, j);
  }

  lemma VoltageStreamStands(b: seq<byte>, i: nat, j: nat, xs: seq<seq<byte>>)
    ensures Stands(Counted(BatteryStream()), VoltagesValue(xs), b, i, j)
       <==> j == i + 1 + 4 * |xs| <= |b| && F32sAt(b, i, xs)
    ensures Sized(Counted(BatteryStream()), VoltagesValue(xs), 1 + 4 * |xs|)
  {
    hide Stands, Sized, Fields, Struct;
    var f := (x: seq<byte>) => Fields([VoltageValue(x)]);
    forall x: seq<byte>, p: nat, q: nat ensures Stands(BatteryStream(), f(x), b, p, q) <==> q == p + 4 && F32At(b, p, x) {
      VoltageStands(b, p, p + 4, x);
      OneStands(BatteryData(), VoltageValue(x), 4, b, p, q);
    }
    forall x: seq<byte> ensures Sized(BatteryStream(), f(x), 4) {
      VoltageStands(b, 0, 0, x);
      OneStands(BatteryData(), VoltageValue(x), 4, b, 0, 0);
    }
    PartsStand(BatteryStream(), 4, f, xs, (p, x) => F32At(b, p, x), b, i, j);
  }

  lemma VolumeStreamStands(b: seq<byte>, i: nat, j: nat, xs: seq<int>)
    ensures Stands(Counted(MicrophoneStream()), VolumesValue(xs), b, i, j)
       <==> j == i + 1 + |xs| <= |b| && U8sAt(b, i, xs)
    ensures Sized(Counted(MicrophoneStream()), VolumesValue(xs), 1 + |xs|)
  {
    hide Stands, Sized, Fields, Struct;
    var f := (x: int) => Fields([NumberValue(x)]);
    forall x: int, p: nat, q: nat ensures Stands(MicrophoneStream(), f(x), b, p, q) <==> q == p + 1 && U8At(b, p, x) {
      VolumeStands(b, p, p + 1, x);
      OneStands(MicrophoneData(), NumberValue(x), 1, b, p, q);
    }
    forall x: int ensures Sized(MicrophoneStream(), f(x), 1) {
      VolumeStands(b, 0, 0, x);
      OneStands(MicrophoneData(), NumberValue(x), 1, b, 0, 0);
    }
    PartsStand(MicrophoneStream(), 1, f, xs, (p, x) => U8At(b, p, x), b, i, j);
  }

  lemma DeviceStreamStands(b: seq<byte>, i: nat, j: nat, xs: seq<Device>)
    ensures Stands(Counted(ScanStream()), DevicesValue(xs), b, i, j)
       <==> j == i + 1 + 3 * |xs| <= |b| && DevicesAt(b, i, xs)
    ensures Sized(Counted(ScanStream()), DevicesValue(xs), 1 + 3 * |xs|)
  {
    hide Stands, Sized, Fields, Struct;
    var f := (x: Device) => Fields([DeviceValue(x)]);
    forall x: Device, p: nat, q: nat ensures Stands(ScanStream(), f(x), b, p, q) <==> q == p + 3 && DeviceAt(b, p, x) {
      DeviceStands(b, p, p + 3, x);
      OneStands(ScanDevice(), DeviceValue(x), 3, b, p, q);
    }
    forall x: Device ensures Sized(ScanStream(), f(x), 3) {
      DeviceStands(b, 0, 0, x);
      OneStands(ScanDevice(), DeviceValue(x), 3, b, 0, 0);
    }
    PartsStand(ScanStream(), 3, f, xs, (p, x) => DeviceAt(b, p, x), b, i, j);
  }

  lemma RawStreamStands(b: seq<byte>, i: nat, j: nat, xs: seq<Acceleration>)
    ensures Stands(Counted(AccelerometerStream()), RawsValue(xs), b, i, j)
       <==> j == i + 1 + 6 * |xs| <= |b| && AccelerationsAt(b, i, xs)
    ensures Sized(Counted(AccelerometerStream()), RawsValue(xs), 1 + 6 * |xs|)
  {
    hide Stands, Sized, Fields, Struct;
    var f := (x: Acceleration) => Fields([RawValue(x)]);
    forall x: Acceleration, p: nat, q: nat
      ensures Stands(AccelerometerStream(), f(x), b, p, q) <==> q == p + 6 && AccelerationAt(b, p, x)
    {
      RawStands(b, p, p + 6, x);
      OneStands(AccelerometerRawData(), RawValue(x), 6, b, p, q);
    }
    forall x: Acceleration ensures Sized(AccelerometerStream(), f(x), 6) {
      RawStands(b, 0, 0, x);
      OneStands(AccelerometerRawData(), RawValue(x), 6, b, 0, 0);
    }
    PartsStand(AccelerometerStream(), 6, f, xs, (p, x) => AccelerationAt(b, p, x), b, i, j);
  }

  lemma InterruptStreamStands(b: seq<byte>, i: nat, j: nat, xs: seq<Stamp>)
    ensures Stands(Counted(AccelerometerInterruptStream()), StampsValue(xs), b, i, j)
       <==> j == i + 1 + 6 * |xs| <= |b| && StampsAt(b, i, xs)
    ensures Sized(Counted(AccelerometerInterruptStream()), StampsValue(xs), 1 + 6 * |xs|)
  {
    hide Stands, Sized, Fields, Struct;
    var f := (x: Stamp) => Fields([StampValue(x)]);
    forall x: Stamp, p: nat, q: nat
      ensures Stands(AccelerometerInterruptStream(), f(x), b, p, q) <==> q == p + 6 && StampAt(b, p, x)
    {
      StampStands(b, p, p + 6, x);
      OneStands(Timestamp(), StampValue(x), 6, b, p, q);
    }
    forall x: Stamp ensures Sized(AccelerometerInterruptStream(), f(x), 6) {
      StampStands(b, 0, 0, x);
      OneStands(Timestamp(), StampValue(x), 6, b, 0, 0);
    }
    PartsStand(AccelerometerInterruptStream(), 6, f, xs, (p, x) => StampAt(b, p, x), b, i, j);
  }

  // ---- whole responses ----

  lemma StatusIsStands(b: seq<byte>, m: Answer)
    requires m.StatusIs?
    ensures Stands(StatusResponse(), AnswerBody(m), b, 1, |b|)
       <==> && |b| == 17 && U8At(b, 1, m.clock) && U8At(b, 2, m.microphone) && U8At(b, 3, m.scan) && U8At(b, 4, m.accelerometer)
            && U8At(b, 5, m.interrupt) && U8At(b, 6, m.battery) && StampAt(b, 7, m.at) && F32At(b, 13, m.voltage)
  {
    hide StampAt, Stands, Sized, Fields, Struct, Timestamp, StampValue, U8At, BatteryData, VoltageValue;
    var fs := [U8, U8, U8, U8, U8, U8, Timestamp(), BatteryData()];
    var vs := [Num(m.clock), Num(m.microphone), Num(m.scan), Num(m.accelerometer), Num(m.interrupt), Num(m.battery),
               StampValue(m.at), VoltageValue(m.voltage)];
    var at: seq<nat> := [1, 2, 3, 4, 5, 6, 7, 13, 17];
    Leaves(b);
    Sizes();
    StampStands(b, 7, 13, m.at);
    VoltageStands(b, 13, 17, m.voltage);
    StructStands(fs, vs, b, at, |b|);
    EightStand(fs, vs, b, at);
  }

  lemma SamplesStands(b: seq<byte>, m: Answer)
    requires m.Samples?
    ensures Stands(MicrophoneDataResponse(), AnswerBody(m), b, 1, |b|)
       <==> && |b| == 11 + |m.volumes| && U8At(b, 1, m.last) && StampAt(b, 2, m.at) && U16At(b, 8, m.periodMs)
            && U8sAt(b, 10, m.volumes)
  {
    hide StampAt, Stands, Sized, Fields, Struct, Timestamp, StampValue, U8At, U8sAt, U16sAt, SightingsAt, ListValue,
      MicrophoneData, NumberValue;
    var fs := [U8, Timestamp(), U16, Counted(MicrophoneData())];
    var vs := [Num(m.last), StampValue(m.at), Num(m.periodMs), ListValue(m.volumes, NumberValue)];
    var at: seq<nat> := [1, 2, 8, 10, 11 + |m.volumes|];
    Leaves(b);
    Sizes();
    StampStands(b, 2, 8, m.at);
    VolumeListStands(b, 10, 11 + |m.volumes|, m.volumes);
    StructStands(fs, vs, b, at, |b|);
    FourStand(fs, vs, b, at);
  }

  lemma SightingsStands(b: seq<byte>, m: Answer)
    requires m.Sightings?
    ensures Stands(ScanDataResponse(), AnswerBody(m), b, 1, |b|)
       <==> |b| == 9 + 4 * |m.sightings| && U8At(b, 1, m.last) && StampAt(b, 2, m.at) && SightingsAt(b, 8, m.sightings)
  {
    hide StampAt, Stands, Sized, Fields, Struct, Timestamp, StampValue, U8At, U8sAt, U16sAt, SightingsAt, ListValue,
      ScanResultData, SightingValue;
    var fs := [U8, Timestamp(), Counted(ScanResultData())];
    var vs := [Num(m.last), StampValue(m.at), ListValue(m.sightings, SightingValue)];
    var at: seq<nat> := [1, 2, 8, 9 + 4 * |m.sightings|];
    Leaves(b);
    Sizes();
    StampStands(b, 2, 8, m.at);
    SightingListStands(b, 8, 9 + 4 * |m.sightings|, m.sightings);
    StructStands(fs, vs, b, at, |b|);
    ThreeStand(fs, vs, b, at);
  }

  lemma AccelerationsStands(b: seq<byte>, m: Answer)
    requires m.Accelerations?
    ensures Stands(AccelerometerDataResponse(), AnswerBody(m), b, 1, |b|)
       <==> |b| == 9 + 2 * |m.accelerations| && U8At(b, 1, m.last) && StampAt(b, 2, m.at) && U16sAt(b, 8, m.accelerations)
  {
    hide StampAt, Stands, Sized, Fields, Struct, Timestamp, StampValue, U8At, U8sAt, U16sAt, SightingsAt, ListValue,
      AccelerometerData, NumberValue;
    var fs := [U8, Timestamp(), Counted(AccelerometerData())];
    var vs := [Num(m.last), StampValue(m.at), ListValue(m.accelerations, NumberValue)];
    var at: seq<nat> := [1, 2, 8, 9 + 2 * |m.accelerations|];
    Leaves(b);
    Sizes();
    StampStands(b, 2, 8, m.at);
    AccelerationListStands(b, 8, 9 + 2 * |m.accelerations|, m.accelerations);
    StructStands(fs, vs, b, at, |b|);
    ThreeStand(fs, vs, b, at);
  }

  lemma InterruptStands(b: seq<byte>, m: Answer)
    requires m.Interrupt?
    ensures Stands(AccelerometerInterruptDataResponse(), AnswerBody(m), b, 1, |b|)
       <==> |b| == 8 && U8At(b, 1, m.last) && StampAt(b, 2, m.at)
  {
    hide StampAt, Stands, Sized, Fields, Struct, Timestamp, StampValue, U8At, U8sAt, U16sAt, SightingsAt, ListValue,
      BatteryData;
    var fs := [U8, Timestamp()];
    var vs := [Num(m.last), StampValue(m.at)];
    var at: seq<nat> := [1, 2, 8];
    Leaves(b);
    Sizes();
    StampStands(b, 2, 8, m.at);
    StructStands(fs, vs, b, at, |b|);
    TwoStand(fs, vs, b, at);
  }

  lemma VoltageAnswerStands(b: seq<byte>, m: Answer)
    requires m.Voltage?
    ensures Stands(BatteryDataResponse(), AnswerBody(m), b, 1, |b|)
       <==> |b| == 12 && U8At(b, 1, m.last) && StampAt(b, 2, m.at) && F32At(b, 8, m.voltage)
  {
    hide StampAt, Stands, Sized, Fields, Struct, Timestamp, StampValue, U8At, U8sAt, U16sAt, SightingsAt, ListValue,
      BatteryData, VoltageValue;
    var fs := [U8, Timestamp(), BatteryData()];
    var vs := [Num(m.last), StampValue(m.at), VoltageValue(m.voltage)];
    var at: seq<nat> := [1, 2, 8, 12];
    Leaves(b);
    Sizes();
    StampStands(b, 2, 8, m.at);
    VoltageStands(b, 8, 12, m.voltage);
    StructStands(fs, vs, b, at, |b|);
    ThreeStand(fs, vs, b, at);
  }

  lemma StreamedStands(b: seq<byte>, m: Answer)
    requires m.Streamed?
    ensures Stands(StreamResponse(), AnswerBody(m), b, 1, |b|)
       <==> var i2, i3 := 8 + 4 * |m.voltages|, 9 + 4 * |m.voltages| + |m.volumes|;
            var i4 := i3 + 1 + 3 * |m.devices|;
            var i5 := i4 + 1 + 6 * |m.raw|;
            && |b| == i5 + 1 + 6 * |m.interrupts| && StampAt(b, 1, m.at) && F32sAt(b, 7, m.voltages) && U8sAt(b, i2, m.volumes)
            && DevicesAt(b, i3, m.devices) && AccelerationsAt(b, i4, m.raw) && StampsAt(b, i5, m.interrupts)
  {
    hide StampAt, Stands, Sized, Fields, Struct, Timestamp, StampValue, ListValue, NumberValue, VoltageValue,
      DeviceValue, RawValue,
      F32sAt, U8sAt, DevicesAt, AccelerationsAt, StampsAt, BatteryStream, MicrophoneStream, ScanStream, AccelerometerStream,
      AccelerometerInterruptStream;
    var i2, i3 := 8 + 4 * |m.voltages|, 9 + 4 * |m.voltages| + |m.volumes|;
    var i4 := i3 + 1 + 3 * |m.devices|;
    var i5 := i4 + 1 + 6 * |m.raw|;
    var end := i5 + 1 + 6 * |m.interrupts|;
    var fs := [Timestamp(), Counted(BatteryStream()), Counted(MicrophoneStream()), Counted(ScanStream()),
               Counted(AccelerometerStream()), Counted(AccelerometerInterruptStream())];
    var vs := [StampValue(m.at), VoltagesValue(m.voltages), VolumesValue(m.volumes), DevicesValue(m.devices),
               RawsValue(m.raw), StampsValue(m.interrupts)];
    var at: seq<nat> := [1, 7, i2, i3, i4, i5, end];
    StampStands(b, 1, 7, m.at);
    VoltageStreamStands(b, 7, i2, m.voltages);
    VolumeStreamStands(b, i2, i3, m.volumes);
    DeviceStreamStands(b, i3, i4, m.devices);
    RawStreamStands(b, i4, i5, m.raw);
    InterruptStreamStands(b, i5, end, m.interrupts);
    hide VoltagesValue, VolumesValue, DevicesValue, RawsValue, StampsValue;
    StructStands(fs, vs, b, at, |b|);
    SixStand(fs, vs, b, at);
  }

  // ---- the tags ----

  /** What the tag of a response stands for. */
  function AnswerSchema(m: Answer): Schema {
    match m
    case StatusIs(_, _, _, _, _, _, _, _) => StatusResponse()
    case HasStarted(_, _) => Started()
    case Samples(_, _, _, _) => MicrophoneDataResponse()
    case Sightings(_, _, _) => ScanDataResponse()
    case Accelerations(_, _, _) => AccelerometerDataResponse()
    case Interrupt(_, _) => AccelerometerInterruptDataResponse()
    case Voltage(_, _, _) => BatteryDataResponse()
    case Streamed(_, _, _, _, _, _) => StreamResponse()
    case Tested(_) => TestResponse()
  }

  lemma AnswerTagStandsFor(m: Answer)
    ensures 0 < AnswerTag(m) <= |Responses()| == 13 && Responses()[AnswerTag(m) - 1] == AnswerSchema(m)
  {
    hide Struct;
  }

  lemma TestedStands(b: seq<byte>, failed: int)
    ensures Stands(TestResponse(), Fields([Num(failed)]), b, 1, |b|) <==> |b| == 2 && U8At(b, 1, failed)
  {
    hide Stands, Sized, Fields, Struct;
    Sizes();
    assert Sized(U8, Num(failed), 1);
    U8Stands(b, 1, 2, failed);
    OneStands(U8, Num(failed), 1, b, 1, |b|);
  }

  lemma AnswerBodyStands(b: seq<byte>, m: Answer)
    ensures Stands(AnswerSchema(m), AnswerBody(m), b, 1, |b|) && U8At(b, 0, AnswerTag(m)) <==> AnswerAt(b, m)
  {
    hide Stands, Fields, Struct, StampValue, StampAt, U16At, U8At, U32At, F32At, Timestamp, AnswerTag, ListValue, U8sAt,
      U16sAt,
      F32sAt, SightingsAt, DevicesAt, AccelerationsAt, StampsAt, StatusResponse, Started, MicrophoneDataResponse,
        ScanDataResponse,
      AccelerometerDataResponse, AccelerometerInterruptDataResponse, BatteryDataResponse, StreamResponse, TestResponse;
    match m {
      case StatusIs(_, _, _, _, _, _, _, _) => StatusIsStands(b, m);
      case HasStarted(_, t) => StartedStands(b, t);
      case Samples(_, _, _, _) => SamplesStands(b, m);
      case Sightings(_, _, _) => SightingsStands(b, m);
      case Accelerations(_, _, _) => AccelerationsStands(b, m);
      case Interrupt(_, _) => InterruptStands(b, m);
      case Voltage(_, _, _) => VoltageAnswerStands(b, m);
      case Streamed(_, _, _, _, _, _) => StreamedStands(b, m);
      case Tested(failed) => TestedStands(b, failed);
    }
  }

  lemma StartedStands(b: seq<byte>, t: Stamp)
    ensures Stands(Started(), Fields([StampValue(t)]), b, 1, |b|) <==> |b| == 7 && StampAt(b, 1, t)
  {
    SinceStands(b, t);
    assert Started() == DataSince();
  }

  /** The encoder accepts a response and writes exactly the bytes in which tag and fields stand at their places. */
  lemma AnswerBytes(m: Answer, b: seq<byte>)
    ensures Encodable(Response(), AnswerValue(m)) && b == Encode(Response(), AnswerValue(m)) <==> AnswerAt(b, m)
  {
    hide *;
    ResponseIs(m);
    AnswerTagStandsFor(m);
    ChoiceStands(Responses(), AnswerTag(m), AnswerBody(m), b, |b|);
    WholeStands(Response(), AnswerValue(m), b);
    AnswerBodyStands(b, m);
  }

  lemma ResponseIs(m: Answer)
    ensures Response() == Choice(OneOf(Responses())) && AnswerValue(m) == Tagged(AnswerTag(m), AnswerBody(m))
  {
  }

  // ---- and back ----

  lemma PlainNumbersToo()
    ensures Plain(U8) && Plain(I8) && Plain(U16) && Plain(F32) && Plain(Timestamp())
  {
  }

  lemma PlainPartsOfAnswers()
    ensures Plain(Counted(BatteryStream())) && Plain(Counted(MicrophoneStream())) && Plain(Counted(ScanStream()))
    ensures Plain(Counted(AccelerometerInterruptStream())) && Plain(Counted(MicrophoneData()))
    ensures Plain(Counted(ScanResultData()))
    ensures Plain(Counted(AccelerometerData())) && Plain(BatteryData())
  {
    PlainNumbersToo();
    hide Struct, Timestamp;
    PlainStruct([U8]);
    PlainStruct([F32]);
    PlainStruct([U16]);
    PlainStruct([U16, I8]);
    PlainStruct([ScanDevice(), U8]);
    PlainStruct([BatteryData()]);
    PlainStruct([MicrophoneData()]);
    PlainStruct([ScanDevice()]);
    PlainStruct([Timestamp()]);
  }

  lemma PlainAnswers()
    ensures Plain(StatusResponse()) && Plain(Started()) && Plain(MicrophoneDataResponse()) && Plain(ScanDataResponse())
    ensures Plain(AccelerometerDataResponse()) && Plain(AccelerometerInterruptDataResponse()) && Plain(BatteryDataResponse())
    ensures Plain(TestResponse())
  {
    PlainNumbersToo();
    PlainPartsOfAnswers();
    hide Plain, Struct, Timestamp, BatteryData, MicrophoneData, ScanResultData, AccelerometerData;
    PlainStruct([U8, U8, U8, U8, U8, U8, Timestamp(), BatteryData()]);
    PlainStruct([Timestamp()]);
    PlainStruct([U8, Timestamp(), U16, Counted(MicrophoneData())]);
    PlainStruct([U8, Timestamp(), Counted(ScanResultData())]);
    PlainStruct([U8, Timestamp(), Counted(AccelerometerData())]);
    PlainStruct([U8, Timestamp()]);
    PlainStruct([U8, Timestamp(), BatteryData()]);
    PlainStruct([U8]);
  }

  lemma RawExactly(a: Acceleration)
    ensures Exactly(AccelerometerStream(), Fields([RawValue(a)]))
  {
    var v := Items([Num(a.x), Num(a.y), Num(a.z)]);
    ThreeExactly(v);
    hide Exactly, Struct, Fields;
    StructExactly([Times(3, I16)], [v]);
    StructExactly([AccelerometerRawData()], [RawValue(a)]);
  }

  lemma ThreeExactly(v: Value)
    requires v.Items? && |v.items| == 3
    ensures Exactly(Times(3, I16), v)
  {
  }

  lemma StreamedExactly(m: Answer)
    requires m.Streamed?
    ensures Exactly(StreamResponse(), AnswerBody(m))
  {
    PlainPartsOfAnswers();
    PlainNumbersToo();
    hide Plain, Struct, Fields, Timestamp, BatteryStream, MicrophoneStream, ScanStream, AccelerometerStream,
      AccelerometerInterruptStream, Exactly, StampValue, VoltageValue, NumberValue, DeviceValue, RawValue, ListValue;
    var fs := [Timestamp(), Counted(BatteryStream()), Counted(MicrophoneStream()), Counted(ScanStream()),
               Counted(AccelerometerStream()), Counted(AccelerometerInterruptStream())];
    var vs := [StampValue(m.at), VoltagesValue(m.voltages), VolumesValue(m.volumes), DevicesValue(m.devices),
               RawsValue(m.raw), StampsValue(m.interrupts)];
    PlainIsExact(fs[0], vs[0]);
    PlainIsExact(fs[1], vs[1]);
    PlainIsExact(fs[2], vs[2]);
    PlainIsExact(fs[3], vs[3]);
    RawsExactly(m.raw);
    PlainIsExact(fs[5], vs[5]);
    hide VoltagesValue, VolumesValue, DevicesValue, RawsValue, StampsValue;
    StructExactly(fs, vs);
  }

  lemma RawsExactly(xs: seq<Acceleration>)
    ensures Exactly(Counted(AccelerometerStream()), RawsValue(xs))
  {
    forall a { RawExactly(a); }
    hide Exactly, AccelerometerStream, Fields, RawValue;
    ListExactly(AccelerometerStream(), RawsValue(xs).items);
  }

  lemma AnswerIsExact(m: Answer)
    ensures Exactly(Response(), AnswerValue(m))
  {
    hide *;
    ResponseIs(m);
    AnswerTagStandsFor(m);
    if m.Streamed? {
      StreamedExactly(m);
      SchemaOfStreamed(m);
    } else {
      PlainAnswer(m);
      PlainIsExact(AnswerSchema(m), AnswerBody(m));
    }
    ChoiceExactly(Responses(), AnswerTag(m), AnswerBody(m));
  }

  lemma SchemaOfStreamed(m: Answer)
    requires m.Streamed?
    ensures AnswerSchema(m) == StreamResponse()
  {
  }

  lemma PlainAnswer(m: Answer)
    requires !m.Streamed?
    ensures Plain(AnswerSchema(m))
  {
    PlainAnswers();
    hide Plain, StatusResponse, Started, MicrophoneDataResponse, ScanDataResponse, AccelerometerDataResponse,
      AccelerometerInterruptDataResponse, BatteryDataResponse, TestResponse;
  }

  /** The decoder makes a response of a buffer exactly if all of its bytes are those of the response. */
  lemma AnswerDecodes(m: Answer, b: seq<byte>)
    ensures Decode(Response(), b) == Decoded(AnswerValue(m), []) <==> AnswerAt(b, m)
  {
    hide *;
    AnswerBytes(m, b);
    AnswerIsExact(m);
    DecodesIff(Response(), AnswerValue(m), b);
  }
}
