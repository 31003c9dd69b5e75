/**
 * The Arduino facade class `VL53L5cx` of src/NewVL53L5cx.h.
 *
 * The class stores a configuration (reset pin, I2C address, zone count,
 * ranging frequency, integration time), and `begin` drives the vendor
 * driver through a fixed sequence of calls, stopping for good in
 * `Debugger::reportForever` at the first one that fails. The vendor driver
 * is closed: each of its calls is an abstract `Command` whose `Reply` comes
 * from an oracle. The getters read the vendor's result arrays.
 */
module Facade {
  import opened Bus

  /** `VL53L5CX_NB_TARGET_PER_ZONE` (src/st/platform.h): targets reported per zone. */
  const NbTargetPerZone: nat := 1

  /** The default I2C address of the constructors. */
  const DefaultAddress: byte := 0x29

  /** Zone counts of the two resolutions. */
  const Zones4x4: byte := 16
  const Zones8x8: byte := 64

  /** The values of `res4X4_t` (`RES_4X4_HZ_1 = 1` … `RES_4X4_HZ_60`): the frequency in Hz. */
  type Hz4x4 = f: int | 1 <= f <= 60 witness 1

  /** The values of `res8X8_t` (`RES_8X8_HZ_1 = 1` … `RES_8X8_HZ_15`): the frequency in Hz. */
  type Hz8x8 = f: int | 1 <= f <= 15 witness 1

  /** The `uint8_t` members of the class. */
  datatype Sensor = Sensor(lpnPin: byte, integralTime: byte, resolution: byte, frequency: byte, address: byte)

  /**
   * A configuration one of the public constructors can produce: 16 zones at
   * 1 to 60 Hz, or 64 zones at 1 to 15 Hz.
   */
  predicate Configured(s: Sensor)
  {
    || (s.resolution == Zones4x4 && 1 <= s.frequency <= 60)
    || (s.resolution == Zones8x8 && 1 <= s.frequency <= 15)
  }

  /** The `res4X4_t` constructor: 16 zones, the enum value as the frequency. */
  function New4x4(lpnPin: byte, integralTime: byte, resFreq: Hz4x4, address: byte := DefaultAddress): (s: Sensor)
    ensures Configured(s) && s.resolution == Zones4x4 && s.frequency == resFreq
    ensures s.lpnPin == lpnPin && s.integralTime == integralTime && s.address == address
  {
    Sensor(lpnPin, integralTime, 16, resFreq, address)
  }

  /** The `res8X8_t` constructor: 64 zones, the enum value as the frequency. */
  function New8x8(lpnPin: byte, integralTime: byte, resFreq: Hz8x8, address: byte := DefaultAddress): (s: Sensor)
    ensures Configured(s) && s.resolution == Zones8x8 && s.frequency == resFreq
    ensures s.lpnPin == lpnPin && s.integralTime == integralTime && s.address == address
  {
    Sensor(lpnPin, integralTime, 64, resFreq, address)
  }

  /**
   * The public constructors build exactly the configured sensors: every
   * configured sensor comes from one of them.
   */
  lemma ConstructorsCoverConfigured(s: Sensor)
    ensures Configured(s) ==> s.resolution == Zones4x4 || s.resolution == Zones8x8
    ensures Configured(s) && s.resolution == Zones4x4 ==>
      s == New4x4(s.lpnPin, s.integralTime, s.frequency, s.address)
    ensures Configured(s) && s.resolution == Zones8x8 ==>
      s == New8x8(s.lpnPin, s.integralTime, s.frequency, s.address)
  {
  }

  // ---------------------------------------------------------------------
  // `begin`
  // ---------------------------------------------------------------------

  datatype RangingMode = Autonomous | Continuous
  datatype TargetOrder = Closest | Strongest
  datatype PowerMode = Sleep | Wakeup

  /** The calls `begin` makes, in the vendor's terms. */
  datatype Command =
    | ResetSensor(pin: byte)               // GPIO toggle of the LPN pin; no status is read
    | IsAlive
    | Init
    | SetResolution(zones: byte)
    | SetRangingMode(mode: RangingMode)
    | SetIntegrationTime(ms: byte)
    | SetFrequency(hz: byte)
    | SetTargetOrder(order: TargetOrder)
    | GetIntegrationTime
    | SetPowerMode(power: PowerMode)
    | StartRanging
    | CheckDataReady

  /** A vendor call's status and its 8-bit out-parameter (`isAlive` for `IsAlive`). */
  datatype Reply = Reply(status: byte, flag: byte)

  /** What the closed vendor driver answers to each call. */
  type Vendor = Command -> Reply

  /**
   * The state `begin` leaves behind: the address copied into the platform
   * structure, the calls made, and whether it halted or started ranging.
   */
  datatype Boot =
    | Stopped(platformAddress: byte, trace: seq<Command>)
    | Ranging(platformAddress: byte, trace: seq<Command>)

  /**
   * `begin`, call by call. Every call's status is checked except those of
   * `start_ranging` (only printed) and `check_data_ready` (discarded); the
   * alive check also fails when the sensor reports it is not alive.
   */
  function Begin(s: Sensor, vendor: Vendor): (r: Boot)
    ensures r.platformAddress == s.address
    ensures |r.trace| >= 2 && r.trace[..2] == [ResetSensor(s.lpnPin), IsAlive]
    ensures r.Ranging? ==> r.trace[|r.trace| - 2..] == [StartRanging, CheckDataReady]
  {
    var a := s.address;
    var t1 := [ResetSensor(s.lpnPin), IsAlive];
    var alive := vendor(IsAlive);
    if alive.flag == 0 || alive.status != 0 then Stopped(a, t1) else
    var t2 := t1 + [Init];
    if vendor(Init).status != 0 then Stopped(a, t2) else
    var t3 := t2 + [SetResolution(s.resolution)];
    if vendor(SetResolution(s.resolution)).status != 0 then Stopped(a, t3) else
    if s.integralTime > 0 then
      var t4 := t3 + [SetRangingMode(Autonomous)];
      if vendor(SetRangingMode(Autonomous)).status != 0 then Stopped(a, t4) else
      var t5 := t4 + [SetIntegrationTime(s.integralTime)];
      if vendor(SetIntegrationTime(s.integralTime)).status != 0 then Stopped(a, t5) else
      Configure(a, s.frequency, vendor, t5)
    else
      var t4 := t3 + [SetRangingMode(Continuous)];
      if vendor(SetRangingMode(Continuous)).status != 0 then Stopped(a, t4) else
      Configure(a, s.frequency, vendor, t4)
  }

  /** The part of `begin` after the ranging mode: frequency, target order, power cycle, start. */
  function Configure(a: byte, frequency: byte, vendor: Vendor, t: seq<Command>): (r: Boot)
    ensures r.platformAddress == a
    ensures |r.trace| > |t| && r.trace[..|t|] == t
    ensures r.Ranging? ==> |r.trace| == |t| + 7 && r.trace[|t| + 5..] == [StartRanging, CheckDataReady]
  {
    var t1 := t + [SetFrequency(frequency)];
    if vendor(SetFrequency(frequency)).status != 0 then Stopped(a, t1) else
    var t2 := t1 + [SetTargetOrder(Closest)];
    if vendor(SetTargetOrder(Closest)).status != 0 then Stopped(a, t2) else
    var t3 := t2 + [GetIntegrationTime];
    if vendor(GetIntegrationTime).status != 0 then Stopped(a, t3) else
    var t4 := t3 + [SetPowerMode(Sleep)];
    if vendor(SetPowerMode(Sleep)).status != 0 then Stopped(a, t4) else
    var t5 := t4 + [SetPowerMode(Wakeup)];
    if vendor(SetPowerMode(Wakeup)).status != 0 then Stopped(a, t5) else
    Ranging(a, t5 + [StartRanging, CheckDataReady])
  }

  // ---------------------------------------------------------------------
  // The reference: a fixed plan run until its first failing call
  // ---------------------------------------------------------------------

  /** Whether `begin` halts on this reply to this call. */
  predicate Fails(c: Command, reply: Reply)
  {
    match c
    case ResetSensor(_) => false
    case IsAlive => reply.flag == 0 || reply.status != 0
    case StartRanging => false
    case CheckDataReady => false
    case _ => reply.status != 0
  }

  /** The whole sequence of calls `begin` makes when nothing fails. */
  function Plan(s: Sensor): seq<Command>
  {
    [ResetSensor(s.lpnPin), IsAlive, Init, SetResolution(s.resolution)]
    + (if s.integralTime > 0 then [SetRangingMode(Autonomous), SetIntegrationTime(s.integralTime)]
       else [SetRangingMode(Continuous)])
    + [SetFrequency(s.frequency), SetTargetOrder(Closest), GetIntegrationTime,
       SetPowerMode(Sleep), SetPowerMode(Wakeup), StartRanging, CheckDataReady]
  }

  /** Issue `plan[k..]` in order, halting right after the first call that fails. */
  function Run(plan: seq<Command>, vendor: Vendor, a: byte, k: nat): Boot
    requires k <= |plan|
    decreases |plan| - k
  {
    if k == |plan| then Ranging(a, plan)
    else if Fails(plan[k], vendor(plan[k])) then Stopped(a, plan[..k + 1])
    else Run(plan, vendor, a, k + 1)
  }

  /** A run stops exactly at the first failing call, and reaches ranging iff none fails. */
  lemma {:induction false} RunStopsAtFirstFailure(plan: seq<Command>, vendor: Vendor, a: byte, k: nat)
    requires k <= |plan|
    ensures var r := Run(plan, vendor, a, k);
      && k <= |r.trace| <= |plan| && r.trace == plan[..|r.trace|]
      && (r.Ranging? <==> forall j :: k <= j < |plan| ==> !Fails(plan[j], vendor(plan[j])))
      && (r.Ranging? ==> |r.trace| == |plan|)
      && (r.Stopped? ==> |r.trace| > k && Fails(plan[|r.trace| - 1], vendor(plan[|r.trace| - 1])))
      && (forall j :: k <= j < |r.trace| - 1 ==> !Fails(plan[j], vendor(plan[j])))
    decreases |plan| - k
  {
    if k < |plan| && !Fails(plan[k], vendor(plan[k])) {
      RunStopsAtFirstFailure(plan, vendor, a, k + 1);
    }
  }

  /** One step of a run. */
  lemma RunUnfold(plan: seq<Command>, vendor: Vendor, a: byte, k: nat)
    requires k < |plan|
    ensures Run(plan, vendor, a, k) ==
      if Fails(plan[k], vendor(plan[k])) then Stopped(a, plan[..k + 1]) else Run(plan, vendor, a, k + 1)
  {
  }

  /** `begin` is the plan run until its first failing call. */
  lemma BeginRunsPlan(s: Sensor, vendor: Vendor)
    ensures Begin(s, vendor) == Run(Plan(s), vendor, s.address, 0)
  {
    var p := Plan(s);
    var a := s.address;
    RunUnfold(p, vendor, a, 0);
    RunUnfold(p, vendor, a, 1);
    RunUnfold(p, vendor, a, 2);
    RunUnfold(p, vendor, a, 3);
    RunUnfold(p, vendor, a, 4);
    assert p[..2] == [ResetSensor(s.lpnPin), IsAlive];
    assert p[..3] == p[..2] + [Init];
    assert p[..4] == p[..3] + [SetResolution(s.resolution)];
    assert p[..5] == p[..4] + [p[4]];
    if s.integralTime > 0 {
      RunUnfold(p, vendor, a, 5);
      assert p[..6] == p[..5] + [p[5]];
      ConfigureRunsPlan(p, vendor, a, 6, s.frequency);
    } else {
      ConfigureRunsPlan(p, vendor, a, 5, s.frequency);
    }
  }

  /** The tail of the plan from the frequency call on is what `Configure` issues. */
  lemma ConfigureRunsPlan(p: seq<Command>, vendor: Vendor, a: byte, k: nat, hz: byte)
    requires k + 7 == |p|
    requires p[k..] == [SetFrequency(hz), SetTargetOrder(Closest), GetIntegrationTime,
                        SetPowerMode(Sleep), SetPowerMode(Wakeup), StartRanging, CheckDataReady]
    ensures Configure(a, hz, vendor, p[..k]) == Run(p, vendor, a, k)
  {
    var t := p[..k];
    assert p == t + p[k..];
    RunUnfold(p, vendor, a, k);
    RunUnfold(p, vendor, a, k + 1);
    RunUnfold(p, vendor, a, k + 2);
    RunUnfold(p, vendor, a, k + 3);
    RunUnfold(p, vendor, a, k + 4);
    RunUnfold(p, vendor, a, k + 5);
    RunUnfold(p, vendor, a, k + 6);
    assert p[..k + 1] == t + [SetFrequency(hz)];
    assert p[..k + 2] == p[..k + 1] + [SetTargetOrder(Closest)];
    assert p[..k + 3] == p[..k + 2] + [GetIntegrationTime];
    assert p[..k + 4] == p[..k + 3] + [SetPowerMode(Sleep)];
    assert p[..k + 5] == p[..k + 4] + [SetPowerMode(Wakeup)];
    assert p == p[..k + 5] + [StartRanging, CheckDataReady];
  }

  /**
   * What `begin` does, stated against the plan: its calls are a prefix of
   * the plan, it reaches ranging exactly when no checked call fails, and
   * when it halts the last call made is the first one that failed.
   */
  lemma BeginFollowsPlan(s: Sensor, vendor: Vendor)
    ensures var r := Begin(s, vendor); var p := Plan(s);
      && |r.trace| <= |p| && r.trace == p[..|r.trace|]
      && (r.Ranging? <==> forall j :: 0 <= j < |p| ==> !Fails(p[j], vendor(p[j])))
      && (r.Ranging? ==> r.trace == p)
      && (r.Stopped? ==> Fails(p[|r.trace| - 1], vendor(p[|r.trace| - 1])))
      && (forall j :: 0 <= j < |r.trace| - 1 ==> !Fails(p[j], vendor(p[j])))
  {
    BeginRunsPlan(s, vendor);
    RunStopsAtFirstFailure(Plan(s), vendor, s.address, 0);
  }

  /**
   * The plan's order: resolution comes right after the alive check and
   * init, before ranging mode, integration time, frequency and target
   * order; the integration time is set, after selecting autonomous mode,
   * exactly when `integralTime > 0`; the plan ends with target order
   * CLOSEST, the integration-time read, SLEEP, WAKEUP, start and one
   * data-ready check.
   */
  lemma PlanOrder(s: Sensor)
    ensures var p := Plan(s);
      && p[..4] == [ResetSensor(s.lpnPin), IsAlive, Init, SetResolution(s.resolution)]
      && (forall j :: 0 <= j < |p| && p[j].SetResolution? ==> j == 3)
      && (forall j :: 0 <= j < |p| && (p[j].SetRangingMode? || p[j].SetIntegrationTime?) ==> j > 3)
      && (forall j :: 0 <= j < |p| && (p[j].SetFrequency? || p[j].SetTargetOrder?) ==> j > 3)
      && (SetRangingMode(Autonomous) in p <==> s.integralTime > 0)
      && (SetRangingMode(Continuous) in p <==> s.integralTime == 0)
      && ((exists j :: 0 <= j < |p| && p[j].SetIntegrationTime?) <==> s.integralTime > 0)
      && (s.integralTime > 0 ==> p[4..6] == [SetRangingMode(Autonomous), SetIntegrationTime(s.integralTime)])
      && |p| >= 7
      && p[|p| - 7..] == [SetFrequency(s.frequency), SetTargetOrder(Closest), GetIntegrationTime,
                          SetPowerMode(Sleep), SetPowerMode(Wakeup), StartRanging, CheckDataReady]
  {
    var p := Plan(s);
    if s.integralTime > 0 {
      assert p[4] == SetRangingMode(Autonomous) && p[5] == SetIntegrationTime(s.integralTime);
    } else {
      assert p[4] == SetRangingMode(Continuous);
      assert forall j :: 0 <= j < |p| ==> !p[j].SetIntegrationTime?;
    }
  }

  /**
   * The statuses of `start_ranging` and `check_data_ready` never matter:
   * two vendors that agree on every other call lead `begin` to the same end.
   */
  lemma StartStatusIgnored(s: Sensor, v1: Vendor, v2: Vendor)
    requires forall c :: c != StartRanging && c != CheckDataReady ==> v1(c) == v2(c)
    ensures Begin(s, v1) == Begin(s, v2)
  {
    var p := Plan(s);
    BeginRunsPlan(s, v1);
    BeginRunsPlan(s, v2);
    forall j | 0 <= j < |p|
      ensures Fails(p[j], v1(p[j])) == Fails(p[j], v2(p[j]))
    {
      if p[j] != StartRanging && p[j] != CheckDataReady {
        assert v1(p[j]) == v2(p[j]);
      }
    }
    RunSameFailures(p, v1, v2, s.address, 0);
  }

  /** A run depends on the vendor only through which calls fail. */
  lemma {:induction false} RunSameFailures(plan: seq<Command>, v1: Vendor, v2: Vendor, a: byte, k: nat)
    requires k <= |plan|
    requires forall j :: k <= j < |plan| ==> Fails(plan[j], v1(plan[j])) == Fails(plan[j], v2(plan[j]))
    ensures Run(plan, v1, a, k) == Run(plan, v2, a, k)
    decreases |plan| - k
  {
    if k < |plan| {
      RunSameFailures(plan, v1, v2, a, k + 1);
    }
  }

  // ---------------------------------------------------------------------
  // Result getters
  // ---------------------------------------------------------------------

  /**
   * The fields of the vendor's results structure the getters read. The
   * per-target arrays hold `NbTargetPerZone` entries per zone, zone-major;
   * the per-zone arrays one entry per zone.
   */
  datatype Results = Results(
    targetStatus: seq<byte>,
    distanceMm: seq<int>,
    nbTargetDetected: seq<byte>,
    ambientPerSpad: seq<nat>)

  /** Result arrays sized for the largest resolution, 64 zones. */
  predicate Sized(res: Results)
  {
    && |res.targetStatus| == NbTargetPerZone * 64
    && |res.distanceMm| == NbTargetPerZone * 64
    && |res.nbTargetDetected| == 64
    && |res.ambientPerSpad| == 64
  }

  /** `getPixelCount`: the number of zones. */
  function PixelCount(s: Sensor): (n: byte)
    ensures Configured(s) ==> n == 16 || n == 64
  {
    s.resolution
  }

  /**
   * `VL53L5CX_NB_TARGET_PER_ZONE * pixel`: the position of the first target
   * of zone `pixel` in a per-target array.
   */
  function FirstTarget(pixel: nat): (k: nat)
    ensures k / NbTargetPerZone == pixel && k % NbTargetPerZone == 0
  {
    NbTargetPerZone * pixel
  }

  /**
   * The entries of zone `z` in a per-target array laid out zone-major:
   * zone 0's `NbTargetPerZone` targets, then zone 1's, and so on.
   */
  function ZoneTargets<T>(a: seq<T>, z: nat): (t: seq<T>)
    requires NbTargetPerZone * (z + 1) <= |a|
    ensures |t| == NbTargetPerZone
  {
    a[NbTargetPerZone * z .. NbTargetPerZone * (z + 1)]
  }

  /** `getTargetStatus`: the status of the first target of the zone. */
  function TargetStatus(res: Results, pixel: byte): (st: byte)
    requires NbTargetPerZone * (pixel + 1) <= |res.targetStatus|
    ensures st == ZoneTargets(res.targetStatus, pixel)[0]
  {
    res.targetStatus[NbTargetPerZone * pixel]
  }

  /** `getDistanceMm`: the distance of the first target of the zone. */
  function DistanceMm(res: Results, pixel: byte): (d: int)
    requires NbTargetPerZone * (pixel + 1) <= |res.distanceMm|
    ensures d == ZoneTargets(res.distanceMm, pixel)[0]
  {
    res.distanceMm[NbTargetPerZone * pixel]
  }

  /**
   * `getTargetDetectedCount`: the per-zone entry of the same zone whose
   * first target `TargetStatus` and `DistanceMm` read.
   */
  function TargetDetectedCount(res: Results, pixel: byte): (n: byte)
    requires pixel < |res.nbTargetDetected|
    ensures FirstTarget(pixel) / NbTargetPerZone < |res.nbTargetDetected|
    ensures n == res.nbTargetDetected[FirstTarget(pixel) / NbTargetPerZone]
  {
    res.nbTargetDetected[pixel]
  }

  /** `getAmbientPerSpad`: the zone's entry returned as `uint8_t`, so truncated to 8 bits. */
  function AmbientPerSpad(res: Results, pixel: byte): (a: byte)
    requires pixel < |res.ambientPerSpad|
    ensures res.ambientPerSpad[pixel] < 0x100 ==> a == res.ambientPerSpad[pixel]
    ensures (res.ambientPerSpad[pixel] - a) % 0x100 == 0
  {
    res.ambientPerSpad[pixel] % 0x100
  }

  /**
   * The getters' indexing: for a configured sensor every pixel below the
   * pixel count reads inside arrays sized for 64 zones; zone `i`'s targets
   * occupy `NbTargetPerZone * i + j` for `j` below the per-zone count, so
   * different pixels never share an entry.
   */
  lemma GetterIndexing(s: Sensor, res: Results, pixel: byte, other: byte, j: nat)
    requires Configured(s) && Sized(res) && pixel < PixelCount(s)
    ensures NbTargetPerZone * (pixel + 1) <= |res.targetStatus|
    ensures NbTargetPerZone * (pixel + 1) <= |res.distanceMm|
    ensures pixel < |res.nbTargetDetected| && pixel < |res.ambientPerSpad|
    ensures j < NbTargetPerZone ==> (FirstTarget(pixel) + j) / NbTargetPerZone == pixel
    ensures other != pixel ==> FirstTarget(other) != FirstTarget(pixel)
  {
  }
}
