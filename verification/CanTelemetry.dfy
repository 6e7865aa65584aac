/** The virtual-CAN telemetry bridge: the transmitter's drive cycle, the frames it packs, and the
    receiver that decodes them and counts alerts. Bytes are naturals below 256, doubles reals. */
module CanTelemetry {
  import opened Arithmetic
  import opened CanBus
  import opened Sequences

  const ENGINE_ID: nat := 0x0C0
  const VEHICLE_ID: nat := 0x0D0

  // ----- big-endian fields

  method Be16Put(p: array<nat>, at: nat, v: nat)
    requires at + 2 <= p.Length
    modifies p
    ensures p[..] == old(p[..])[at := v / 256 % 256][at + 1 := v % 256]
    ensures v < 0x1_0000 ==> Be16Get(p[..], at) == v
  {
    p[at] := v / 256 % 256;
    p[at + 1] := v % 256;
  }

  method Be24Put(p: array<nat>, at: nat, v: nat)
    requires at + 3 <= p.Length
    modifies p
    ensures p[..] == old(p[..])[at := v / 0x1_0000 % 256][at + 1 := v / 256 % 256][at + 2 := v % 256]
    ensures Be24Get(p[..], at) == v % 0x100_0000
  {
    p[at] := v / 0x1_0000 % 256;
    p[at + 1] := v / 256 % 256;
    p[at + 2] := v % 256;
    Be24Parts(v);
  }

  lemma Be24Parts(v: nat)
    ensures v / 0x1_0000 % 256 * 0x1_0000 + v / 256 % 256 * 256 + v % 256 == v % 0x100_0000
  {
    var hi, lo := v / 256, v % 256;
    var top, mid := hi / 256, hi % 256;
    assert v == top * 0x1_0000 + (mid * 256 + lo);
    DivModUnique(v, 0x1_0000, top, mid * 256 + lo);
    assert v == top / 256 * 0x100_0000 + (top % 256 * 0x1_0000 + mid * 256 + lo);
    DivModUnique(v, 0x100_0000, top / 256, top % 256 * 0x1_0000 + mid * 256 + lo);
  }

  function Be16Get(p: seq<nat>, at: nat): nat
    requires at + 2 <= |p|
  {
    p[at] * 256 + p[at + 1]
  }

  function Be24Get(p: seq<nat>, at: nat): nat
    requires at + 3 <= |p|
  {
    p[at] * 0x1_0000 + p[at + 1] * 256 + p[at + 2]
  }

  // ----- the drive cycle

  /** The values of sin and exp a tick uses. */
  datatype Wave = Wave(slow: real, fast: real, drift: real, decay: real)

  predicate IsWave(w: Wave) {
    -1.0 <= w.slow <= 1.0 && -1.0 <= w.fast <= 1.0 && -1.0 <= w.drift <= 1.0 && 0.0 < w.decay <= 1.0
  }

  function Throttle(w: Wave): real { 40.0 + 40.0 * w.slow }

  function CruiseRpm(w: Wave): real { 900.0 + 30.0 * Throttle(w) + 400.0 * w.fast }

  function Speed(w: Wave): real {
    var v := 0.02 * CruiseRpm(w) - 20.0;
    if v > 0.0 then v else 0.0
  }

  /** Engine speed as sent: raised by --redline, then clamped to 16383 quarter turns. */
  function Rpm(w: Wave, redline: bool): real {
    var r := CruiseRpm(w) + (if redline then 2500.0 else 0.0);
    if r < 0.0 then 0.0 else if r > 4095.75 then 4095.75 else r
  }

  function Coolant(w: Wave, redline: bool): real {
    80.0 + 15.0 * (1.0 - w.decay) + 3.0 * w.drift + (if redline then 40.0 else 0.0)
  }

  function Lround(v: real): int {
    if v >= 0.0 then (v + 0.5).Floor else -((-v + 0.5).Floor)
  }

  function Rate(hz: real): (r: real)
    ensures r > 0.0
  {
    if hz > 0.0 then hz else 10.0
  }

  /** Distance of one tick, and the whole metres of it that the odometer takes. */
  function Metres(w: Wave, hz: real): real { Speed(w) / 3.6 / Rate(hz) }

  function WholeMetres(w: Wave, hz: real): int { Metres(w, hz).Floor }

  // ----- frames

  function EngineFrame(w: Wave, redline: bool): CanFrame {
    var rpm := (Rpm(w, redline) / 0.25).Floor;
    CanFrame(ENGINE_ID, 8,
             [Byte(rpm / 256), Byte(rpm), Byte(Lround(Coolant(w, redline)) + 40),
              Byte(Lround(Throttle(w) / 0.4)), if redline then 1 else 0, 0, 0, 0])
  }

  function VehicleFrame(w: Wave, odo: nat): CanFrame {
    var v := Lround(Speed(w) / 0.01);
    CanFrame(VEHICLE_ID, 8,
             [Byte(v / 256), Byte(v), odo / 0x1_0000 % 256, odo / 256 % 256, odo % 256, 0, 0, 0])
  }

  /** Conversion to uint8_t. */
  function Byte(v: int): nat { v % 256 }

  // ----- the receiver

  function DecodedRpm(f: CanFrame): real
    requires |f.data| == 8
  {
    Be16Get(f.data, 0) as real * 0.25
  }

  function DecodedCoolant(f: CanFrame): int
    requires |f.data| == 8
  {
    f.data[2] as int - 40
  }

  function DecodedSpeed(f: CanFrame): real
    requires |f.data| == 8
  {
    Be16Get(f.data, 0) as real * 0.01
  }

  /** Alerts raised by one frame. */
  function AlertsOf(f: CanFrame): nat
    requires |f.data| == 8
  {
    if f.id == ENGINE_ID && f.dlc >= 5 then
      (if DecodedRpm(f) > 6500.0 then 1 else 0) + (if DecodedCoolant(f) > 110 then 1 else 0)
    else if f.id == VEHICLE_ID && f.dlc >= 5 then
      (if DecodedSpeed(f) > 180.0 then 1 else 0)
    else 0
  }

  ghost predicate Eight(fs: seq<CanFrame>) {
    forall i :: 0 <= i < |fs| ==> |fs[i].data| == 8
  }

  function CountAlerts(fs: seq<CanFrame>): nat
    requires Eight(fs)
  {
    if fs == [] then 0 else CountAlerts(fs[..|fs| - 1]) + AlertsOf(fs[|fs| - 1])
  }

  /** The speed of the latest vehicle frame. */
  function LastSpeed(fs: seq<CanFrame>): real
    requires Eight(fs)
  {
    if fs == [] then 0.0
    else
      var f := fs[|fs| - 1];
      if f.id == VEHICLE_ID && f.dlc >= 5 then DecodedSpeed(f) else LastSpeed(fs[..|fs| - 1])
  }

  /** The receive loop. */
  method Receive(fs: seq<CanFrame>) returns (rx: nat, alerts: nat, lastSpeed: real)
    requires Eight(fs)
    ensures rx == |fs| && alerts == CountAlerts(fs)
    ensures lastSpeed == LastSpeed(fs)
  {
    rx, alerts, lastSpeed := 0, 0, 0.0;
    while rx < |fs|
      invariant 0 <= rx <= |fs|
      invariant alerts == CountAlerts(fs[..rx])
      invariant lastSpeed == LastSpeed(fs[..rx])
    {
      var f := fs[rx];
      assert fs[..rx + 1][..rx] == fs[..rx];
      rx := rx + 1;
      if f.id == ENGINE_ID && f.dlc >= 5 {
        var rpm := Be16Get(f.data, 0) as real * 0.25;
        if rpm > 6500.0 {
          alerts := alerts + 1;
        }
        if f.data[2] as int - 40 > 110 {
          alerts := alerts + 1;
        }
      } else if f.id == VEHICLE_ID && f.dlc >= 5 {
        var speed := Be16Get(f.data, 0) as real * 0.01;
        lastSpeed := speed;
        if speed > 180.0 {
          alerts := alerts + 1;
        }
      }
    }
    assert fs[..rx] == fs;
  }

  // ----- what is decoded is what was sent

  lemma SplitByte(v: int)
    requires 0 <= v < 0x1_0000
    ensures Byte(v / 256) * 256 + Byte(v) == v
  {
  }

  lemma CycleRanges(w: Wave, redline: bool)
    requires IsWave(w)
    ensures 0.0 <= Throttle(w) <= 80.0 && 500.0 <= CruiseRpm(w) <= 3700.0 && 0.0 <= Speed(w) <= 54.0
    ensures 0.0 <= Rpm(w, redline) <= 4095.75
    ensures redline ==> 117.0 <= Coolant(w, true) < 138.0
    ensures !redline ==> 77.0 <= Coolant(w, false) < 98.0
  {
  }

  /** Engine speed comes back rounded down to a quarter turn, the coolant temperature to the
      nearest degree. */
  lemma EngineDecoded(w: Wave, redline: bool)
    requires IsWave(w)
    ensures var f := EngineFrame(w, redline);
      && 0.0 <= Rpm(w, redline) - DecodedRpm(f) < 0.25
      && DecodedCoolant(f) == Lround(Coolant(w, redline))
      && -0.2 <= f.data[3] as real * 0.4 - Throttle(w) <= 0.2
      && (f.data[4] == 1 <==> redline)
  {
    CycleRanges(w, redline);
    FloorBounds(Rpm(w, redline) / 0.25);
    SplitByte((Rpm(w, redline) / 0.25).Floor);
    FloorBounds(Coolant(w, redline) + 0.5);
    FloorBounds(Throttle(w) / 0.4 + 0.5);
    assert Byte(Lround(Throttle(w) / 0.4)) == Lround(Throttle(w) / 0.4);
    assert Byte(Lround(Coolant(w, redline)) + 40) == Lround(Coolant(w, redline)) + 40;
  }

  lemma VehicleDecoded(w: Wave, odo: nat)
    requires IsWave(w)
    ensures var f := VehicleFrame(w, odo);
      && -0.005 <= DecodedSpeed(f) - Speed(w) <= 0.005
      && Be24Get(f.data, 2) == odo % 0x100_0000
  {
    CycleRanges(w, false);
    FloorBounds(Speed(w) / 0.01 + 0.5);
    SplitByte(Lround(Speed(w) / 0.01));
    Be24Parts(odo);
  }

  /** One tick raises no alert, and with --redline exactly the coolant one: the clamp keeps the
      engine speed far below the alert threshold, whatever the comment in the transmitter says. */
  lemma TickAlerts(w: Wave, redline: bool, odo: nat)
    requires IsWave(w)
    ensures AlertsOf(EngineFrame(w, redline)) == if redline then 1 else 0
    ensures AlertsOf(VehicleFrame(w, odo)) == 0
    ensures DecodedRpm(EngineFrame(w, redline)) <= 4095.75
  {
    CycleRanges(w, redline);
    EngineDecoded(w, redline);
    VehicleDecoded(w, odo);
    FloorBounds(Coolant(w, redline) + 0.5);
  }

  /** In raw fields: the receiver alerts above 26000 quarter turns, above a coolant byte of 150 and
      above 18000 hundredths of a km/h, and on no other frame. */
  lemma AlertsByField(f: CanFrame)
    requires |f.data| == 8
    ensures var field := f.data[0] * 256 + f.data[1];
      AlertsOf(f) ==
        if f.id == 0x0C0 && f.dlc >= 5 then (if field > 26000 then 1 else 0) + (if f.data[2] > 150 then 1 else 0)
        else if f.id == 0x0D0 && f.dlc >= 5 && field > 18000 then 1
        else 0
  {
  }

  // ----- the shape of the drive cycle

  function Halfway(v: Wave, w: Wave): Wave {
    Wave((v.slow + w.slow) / 2.0, (v.fast + w.fast) / 2.0, (v.drift + w.drift) / 2.0, (v.decay + w.decay) / 2.0)
  }

  /** Throttle, engine speed and coolant are affine in the waves: halfway between two ticks they are
      halfway between their values. */
  lemma CycleAffine(v: Wave, w: Wave, redline: bool)
    ensures var m := Halfway(v, w);
      && Throttle(m) == (Throttle(v) + Throttle(w)) / 2.0
      && CruiseRpm(m) == (CruiseRpm(v) + CruiseRpm(w)) / 2.0
      && Coolant(m, redline) == (Coolant(v, redline) + Coolant(w, redline)) / 2.0
  {
  }

  /** With these values they are determined: throttle from 0 to 80 %, 2100 rpm and 22 km/h at rest,
      1200 rpm either way by the slow wave and 400 by the fast one, coolant 80 degrees cold, 3
      either way by the drift, 40 more with --redline. */
  lemma CycleValues(w: Wave)
    ensures w.slow == -1.0 ==> Throttle(w) == 0.0
    ensures w.slow == 1.0 ==> Throttle(w) == 80.0
    ensures w.slow == 0.0 && w.fast == 0.0 ==> CruiseRpm(w) == 2100.0 && Speed(w) == 22.0
    ensures w.slow == 1.0 && w.fast == 0.0 ==> CruiseRpm(w) == 3300.0 && Speed(w) == 46.0
    ensures w.slow == 0.0 && w.fast == 1.0 ==> CruiseRpm(w) == 2500.0 && Speed(w) == 30.0
    ensures w.decay == 1.0 && w.drift == 0.0 ==> Coolant(w, false) == 80.0
    ensures w.decay == 1.0 && w.drift == 1.0 ==> Coolant(w, false) == 83.0
    ensures w.decay == 1.0 && w.drift == -1.0 ==> Coolant(w, false) == 77.0
    ensures Coolant(w, true) == Coolant(w, false) + 40.0
  {
  }

  /** A rate that is not positive counts as 10 ticks a second, and twice the rate is half the way. */
  lemma RateScales(w: Wave, hz: real)
    ensures hz <= 0.0 ==> Metres(w, hz) == Metres(w, 10.0)
    ensures hz > 0.0 ==> Metres(w, 2.0 * hz) == Metres(w, hz) / 2.0 && Metres(w, 1.0) == Speed(w) / 3.6
  {
    if hz > 0.0 {
      HalfQuotient(Speed(w) / 3.6, hz);
    }
  }

  lemma HalfQuotient(v: real, hz: real)
    requires hz > 0.0
    ensures v / (2.0 * hz) == v / hz / 2.0
  {
    var x, y := v / (2.0 * hz), v / hz;
    assert x * (2.0 * hz) == v && y * hz == v;
    assert (2.0 * x - y) * hz == 0.0;
    var d := 2.0 * x - y;
    if d > 0.0 {
      TimesPositive(d, hz);
    } else if d < 0.0 {
      TimesPositive(-d, hz);
    }
  }

  /** Warming up, the coolant rises towards 95 degrees and never gets there. */
  lemma CoolantWarms(w: Wave, eps: real)
    requires IsWave(w) && w.drift == 0.0 && eps > 0.0 && w.decay <= eps / 15.0
    ensures 95.0 - eps <= Coolant(w, false) < 95.0
  {
  }

  /** The frames of a tick at rest, byte for byte. */
  lemma FramesAtRest(w: Wave, odo: nat)
    requires w == Wave(0.0, 0.0, 0.0, 1.0) && odo == 0x12_3456
    ensures EngineFrame(w, false) == CanFrame(0x0C0, 8, [0x20, 0xD0, 120, 100, 0, 0, 0, 0])
    ensures EngineFrame(w, true) == CanFrame(0x0C0, 8, [0x3F, 0xFF, 160, 100, 1, 0, 0, 0])
    ensures VehicleFrame(w, odo) == CanFrame(0x0D0, 8, [0x08, 0x98, 0x12, 0x34, 0x56, 0, 0, 0])
  {
    assert Rpm(w, false) / 0.25 == 8400.0 && Rpm(w, true) / 0.25 == 16383.0;
    assert Lround(Coolant(w, false)) == 80 && Lround(Coolant(w, true)) == 120;
    assert Lround(Throttle(w) / 0.4) == 100 && Lround(Speed(w) / 0.01) == 2200;
  }

  // ----- whole runs

  /** The odometer after `n` ticks, 32 bits wide. */
  function Odometer(ticks: seq<Wave>, hz: real, n: nat): nat
    requires n <= |ticks|
  {
    if n == 0 then 0 else (Odometer(ticks, hz, n - 1) + WholeMetres(ticks[n - 1], hz)) % TWO32
  }

  function Sent(ticks: seq<Wave>, hz: real, redline: bool, n: nat): (fs: seq<CanFrame>)
    requires n <= |ticks|
    ensures |fs| == 2 * n && forall i :: 0 <= i < |fs| ==> |fs[i].data| == 8
  {
    if n == 0 then []
    else Sent(ticks, hz, redline, n - 1)
         + [EngineFrame(ticks[n - 1], redline), VehicleFrame(ticks[n - 1], Odometer(ticks, hz, n))]
  }

  datatype Time = Time(sec: int, nsec: int)

  function Nanos(t: Time): int { t.sec * 1_000_000_000 + t.nsec }

  predicate Normal(t: Time) { 0 <= t.nsec < 1_000_000_000 }

  /** The next deadline of the absolute schedule. */
  method Advance(t: Time, period: nat) returns (t': Time)
    requires Normal(t)
    ensures Normal(t') && Nanos(t') == Nanos(t) + period
  {
    var sec, nsec := t.sec, t.nsec + period;
    while nsec >= 1_000_000_000
      invariant nsec >= 0 && sec * 1_000_000_000 + nsec == Nanos(t) + period
    {
      nsec := nsec - 1_000_000_000;
      sec := sec + 1;
    }
    t' := Time(sec, nsec);
  }

  /** One tick's engine frame, filled in field by field. */
  method FillEngine(w: Wave, redline: bool) returns (f: CanFrame)
    requires IsWave(w)
    ensures f == EngineFrame(w, redline)
  {
    var rpm, ect, mil := CruiseRpm(w), Coolant(w, false), 0;
    if redline {
      rpm, ect, mil := rpm + 2500.0, ect + 40.0, 1;
    }
    if rpm < 0.0 {
      rpm := 0.0;
    }
    if rpm > 4095.75 {
      rpm := 4095.75;
    }
    var data := new nat[8](_ => 0);
    FloorBounds(rpm / 0.25);
    Be16Put(data, 0, (rpm / 0.25).Floor);
    data[2] := Byte(Lround(ect) + 40);
    data[3] := Byte(Lround(Throttle(w) / 0.4));
    data[4] := if mil != 0 then 1 else 0;
    f := CanFrame(ENGINE_ID, 8, data[..]);
  }

  method FillVehicle(w: Wave, odo: nat) returns (f: CanFrame)
    requires IsWave(w)
    ensures f == VehicleFrame(w, odo)
  {
    var data := new nat[8](_ => 0);
    CycleRanges(w, false);
    FloorBounds(Speed(w) / 0.01 + 0.5);
    Be16Put(data, 0, Lround(Speed(w) / 0.01));
    Be24Put(data, 2, odo);
    f := CanFrame(VEHICLE_ID, 8, data[..]);
  }

  /** Both writes of one tick; the write after the first `budget` of the run fails. */
  method SendTick(sent: seq<CanFrame>, w: Wave, redline: bool, odo: nat, budget: nat)
    returns (sent': seq<CanFrame>, ok: bool)
    requires IsWave(w) && |sent| <= budget
    ensures ok <==> budget - |sent| >= 2
    ensures sent' == sent + [EngineFrame(w, redline), VehicleFrame(w, odo)][..Min(2, budget - |sent|)]
  {
    sent', ok := sent, false;
    var engine := FillEngine(w, redline);
    if |sent'| == budget {
      return;
    }
    sent' := sent' + [engine];
    var vehicle := FillVehicle(w, odo);
    if |sent'| == budget {
      return;
    }
    sent', ok := sent' + [vehicle], true;
  }

  /** The transmit loop. `ticks` are the iterations until the program is told to stop; a failing
      write ends it early. Deadline k is exactly t0 + k * period. */
  method Transmit(ticks: seq<Wave>, hz: real, redline: bool, budget: nat, t0: Time, period: nat)
    returns (sent: seq<CanFrame>, odo: nat, next: Time, done: nat)
    requires Normal(t0) && forall i :: 0 <= i < |ticks| ==> IsWave(ticks[i])
    ensures sent == Sent(ticks, hz, redline, |ticks|)[..Min(budget, 2 * |ticks|)]
    ensures done == Min(|ticks|, budget / 2)
    ensures Normal(next) && Nanos(next) == Due(t0, period, done)
    ensures odo == Odometer(ticks, hz, Min(|ticks|, done + 1))
  {
    sent, odo, next, done := [], 0, t0, 0;
    while done < |ticks|
      invariant 0 <= done <= |ticks| && 2 * done <= budget
      invariant sent == Sent(ticks, hz, redline, done)
      invariant odo == Odometer(ticks, hz, done)
      invariant Normal(next) && Nanos(next) == Due(t0, period, done)
    {
      odo := (odo + WholeMetres(ticks[done], hz)) % TWO32;
      assert odo == Odometer(ticks, hz, done + 1);
      var ok;
      sent, ok := SendTick(sent, ticks[done], redline, odo, budget);
      if !ok {
        SentCut(ticks, hz, redline, done, budget);
        return;
      }
      SentStep(ticks, hz, redline, done);
      next := Advance(next, period);
      DueStep(t0, period, done);
      done := done + 1;
    }
    assert sent == sent[..2 * |ticks|];
  }

  /** The k-th deadline in nanoseconds. */
  function Due(t0: Time, period: nat, k: nat): int { Nanos(t0) + k * period }

  lemma DueStep(t0: Time, period: nat, k: nat)
    ensures Due(t0, period, k + 1) == Due(t0, period, k) + period
  {
  }

  lemma SentStep(ticks: seq<Wave>, hz: real, redline: bool, k: nat)
    requires k < |ticks|
    ensures var pair := [EngineFrame(ticks[k], redline), VehicleFrame(ticks[k], Odometer(ticks, hz, k + 1))];
      Sent(ticks, hz, redline, k + 1) == Sent(ticks, hz, redline, k) + pair[..2]
  {
    var pair := [EngineFrame(ticks[k], redline), VehicleFrame(ticks[k], Odometer(ticks, hz, k + 1))];
    assert pair[..2] == pair;
  }

  /** A tick whose writes run out leaves a prefix of the full run. */
  lemma SentCut(ticks: seq<Wave>, hz: real, redline: bool, k: nat, budget: nat)
    requires k < |ticks| && 2 * k <= budget < 2 * k + 2
    ensures var w, odo := ticks[k], Odometer(ticks, hz, k + 1);
      Sent(ticks, hz, redline, k) + [EngineFrame(w, redline), VehicleFrame(w, odo)][..budget - 2 * k]
      == Sent(ticks, hz, redline, |ticks|)[..budget]
  {
    SentPrefix(ticks, hz, redline, k + 1, |ticks|);
    var w, odo := ticks[k], Odometer(ticks, hz, k + 1);
    PrefixCut(Sent(ticks, hz, redline, |ticks|), Sent(ticks, hz, redline, k),
              [EngineFrame(w, redline), VehicleFrame(w, odo)], budget - 2 * k);
  }

  lemma PrefixCut(all: seq<CanFrame>, a: seq<CanFrame>, b: seq<CanFrame>, m: nat)
    requires a + b <= all && m <= |b|
    ensures a + b[..m] == all[..|a| + m]
  {
    assert all[..|a| + m] == (a + b)[..|a| + m];
  }

  lemma {:induction false} SentPrefix(ticks: seq<Wave>, hz: real, redline: bool, m: nat, n: nat)
    requires m <= n <= |ticks|
    ensures Sent(ticks, hz, redline, m) <= Sent(ticks, hz, redline, n)
  {
    if m == n {
    } else {
      SentPrefix(ticks, hz, redline, m, n - 1);
    }
  }

  lemma AppendedPair(pre: seq<CanFrame>, e: CanFrame, v: CanFrame)
    ensures (pre + [e, v])[|pre|] == e && (pre + [e, v])[|pre| + 1] == v
    ensures forall i :: 0 <= i < |pre| ==> (pre + [e, v])[i] == pre[i]
  {
  }

  lemma {:induction false} SentFrames(ticks: seq<Wave>, hz: real, redline: bool, n: nat, i: nat)
    requires n <= |ticks| && i < 2 * n
    ensures Sent(ticks, hz, redline, n)[i] ==
      if i % 2 == 0 then EngineFrame(ticks[i / 2], redline)
      else VehicleFrame(ticks[i / 2], Odometer(ticks, hz, i / 2 + 1))
  {
    var k := n - 1;
    AppendedPair(Sent(ticks, hz, redline, k), EngineFrame(ticks[k], redline),
                 VehicleFrame(ticks[k], Odometer(ticks, hz, n)));
    if i < 2 * k {
      SentFrames(ticks, hz, redline, k, i);
    } else {
      assert i / 2 == k;
    }
  }

  lemma FrameAlerts(ticks: seq<Wave>, hz: real, redline: bool, i: nat)
    requires forall i :: 0 <= i < |ticks| ==> IsWave(ticks[i])
    requires i < 2 * |ticks|
    ensures AlertsOf(Sent(ticks, hz, redline, |ticks|)[i]) == if redline && i % 2 == 0 then 1 else 0
  {
    SentFrames(ticks, hz, redline, |ticks|, i);
    TickAlerts(ticks[i / 2], redline, Odometer(ticks, hz, i / 2 + 1));
  }

  lemma CountAlertsSnoc(fs: seq<CanFrame>, k: nat)
    requires Eight(fs) && k < |fs|
    ensures CountAlerts(fs[..k + 1]) == CountAlerts(fs[..k]) + AlertsOf(fs[k])
  {
    assert fs[..k + 1][..k] == fs[..k];
  }

  lemma {:induction false} EverySecondAlerts(fs: seq<CanFrame>, on: bool, k: nat)
    requires Eight(fs) && k <= |fs|
    requires forall i :: 0 <= i < |fs| ==> AlertsOf(fs[i]) == if on && i % 2 == 0 then 1 else 0
    ensures CountAlerts(fs[..k]) == if on then (k + 1) / 2 else 0
  {
    if k == 0 {
    } else {
      EverySecondAlerts(fs, on, k - 1);
      CountAlertsSnoc(fs, k - 1);
    }
  }

  /** Whatever prefix of a run arrives: no alert from a normal drive, exactly one per engine frame
      from a redline one. */
  lemma RunAlerts(ticks: seq<Wave>, hz: real, redline: bool, k: nat)
    requires forall i :: 0 <= i < |ticks| ==> IsWave(ticks[i])
    requires k <= 2 * |ticks|
    ensures CountAlerts(Sent(ticks, hz, redline, |ticks|)[..k]) == if redline then (k + 1) / 2 else 0
  {
    var fs := Sent(ticks, hz, redline, |ticks|);
    forall i | 0 <= i < |fs| ensures AlertsOf(fs[i]) == if redline && i % 2 == 0 then 1 else 0 {
      FrameAlerts(ticks, hz, redline, i);
    }
    EverySecondAlerts(fs, redline, k);
  }

  /** A whole run, transmitter to receiver, cut short by a failing write or not. */
  method Drive(ticks: seq<Wave>, hz: real, redline: bool, budget: nat, t0: Time, period: nat)
    returns (rx: nat, alerts: nat)
    requires Normal(t0) && forall i :: 0 <= i < |ticks| ==> IsWave(ticks[i])
    ensures rx == Min(budget, 2 * |ticks|)
    ensures alerts == if redline then (rx + 1) / 2 else 0
  {
    var sent, odo, next, done := Transmit(ticks, hz, redline, budget, t0, period);
    RunAlerts(ticks, hz, redline, Min(budget, 2 * |ticks|));
    var lastSpeed;
    rx, alerts, lastSpeed := Receive(sent);
  }

  // ----- the odometer

  ghost function Distance(ticks: seq<Wave>, hz: real, n: nat): real
    requires n <= |ticks|
  {
    if n == 0 then 0.0 else Distance(ticks, hz, n - 1) + Metres(ticks[n - 1], hz)
  }

  ghost function WholeDistance(ticks: seq<Wave>, hz: real, n: nat): int
    requires n <= |ticks|
  {
    if n == 0 then 0 else WholeDistance(ticks, hz, n - 1) + WholeMetres(ticks[n - 1], hz)
  }

  lemma MetresRange(w: Wave, hz: real)
    requires IsWave(w)
    ensures 0.0 <= Metres(w, hz) <= 15.0 / Rate(hz)
    ensures 0 <= WholeMetres(w, hz)
  {
    CycleRanges(w, false);
    var s, r := Speed(w) / 3.6, Rate(hz);
    assert 0.0 <= s <= 15.0;
    DivideRange(s, 15.0, r);
  }

  lemma DivideRange(s: real, t: real, r: real)
    requires 0.0 <= s <= t && r > 0.0
    ensures 0.0 <= s / r <= t / r
  {
    assert s / r * r == s && t / r * r == t;
    assert (t / r - s / r) * r == t - s;
  }

  /** The odometer drops a fraction of a metre every tick: after n ticks, until its 32 bits wrap,
      it lags the distance travelled by at least 0 and less than n metres. */
  lemma {:induction false} OdometerLag(ticks: seq<Wave>, hz: real, n: nat)
    requires n <= |ticks| && forall i :: 0 <= i < |ticks| ==> IsWave(ticks[i])
    ensures WholeDistance(ticks, hz, n) >= 0 && Odometer(ticks, hz, n) == WholeDistance(ticks, hz, n) % TWO32
    ensures 0.0 <= Distance(ticks, hz, n) - WholeDistance(ticks, hz, n) as real
    ensures n > 0 ==> Distance(ticks, hz, n) - WholeDistance(ticks, hz, n) as real < n as real
  {
    if n == 0 {
    } else {
      OdometerLag(ticks, hz, n - 1);
      MetresRange(ticks[n - 1], hz);
      LagStep(Distance(ticks, hz, n - 1), WholeDistance(ticks, hz, n - 1), n - 1, Metres(ticks[n - 1], hz));
      ModuloOfSum(WholeDistance(ticks, hz, n - 1), WholeMetres(ticks[n - 1], hz), TWO32);
    }
  }

  lemma LagStep(d: real, whole: int, n: nat, m: real)
    requires 0.0 <= d - whole as real <= n as real
    ensures 0.0 <= (d + m) - (whole + m.Floor) as real < (n + 1) as real
  {
    FloorBounds(m);
  }
}
