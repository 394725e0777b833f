/** Configuration validation (`Configuration::parse` after deserialization, src/config.rs), and what an
    accepted configuration buys the rest of the controller. Labels, colours and units are left out. */
module Configuration {
  import opened Common
  import opened Protocol
  import DriverLock
  import Liveness

  type U8 = x: int | 0 <= x < 256

  datatype Sensor = Sensor(
    range: Option<(real, real)>,
    calibrationIntercept: real,
    calibrationSlope: real,
    rollingAverageWidth: Option<nat>,
    adc: U8,
    channel: U8)

  datatype SensorGroup = SensorGroup(
    frequencyStandby: nat,
    frequencyIgnition: nat,
    frequencyTransmission: nat,
    sensors: seq<Sensor>)

  datatype Configuration = Configuration(
    logBufferSize: nat,
    sensorGroups: seq<SensorGroup>,
    driverPins: seq<U8>,
    ignitionSequence: seq<Action>,
    estopSequence: seq<Action>,
    spiMosi: U8,
    spiMiso: U8,
    spiClk: U8,
    spiFrequencyClk: nat,
    adcCs: seq<U8>)

  datatype Error =
    | NoSuchAdc(adc: U8)
    | BadChannel(channel: U8)
    | ClockTooSlow
    | NoSuchDriver(driverId: nat)
    | DuplicatePin(pin: U8)
    | ReservedPin(pin: U8)

  datatype Verdict = Accepted | Invalid(error: Error)

  const SPI_MIN_FREQUENCY := 10_000

  predicate IsLegal(pin: U8) {
    1 < pin <= 27
  }

  // ---------------------------------------------------------------------------------------------
  // What is checked, in order
  // ---------------------------------------------------------------------------------------------

  function AllSensors(groups: seq<SensorGroup>): seq<Sensor> {
    if groups == [] then [] else AllSensors(groups[..|groups| - 1]) + groups[|groups| - 1].sensors
  }

  function AllActions(c: Configuration): seq<Action> {
    c.ignitionSequence + c.estopSequence
  }

  /** Every pin given a function, in the order they are checked. The heartbeat pin is not among them. */
  function AllPins(c: Configuration): seq<U8> {
    c.driverPins + [c.spiMosi, c.spiMiso, c.spiClk] + c.adcCs
  }

  predicate GoodSensor(c: Configuration, s: Sensor) {
    s.adc < |c.adcCs| && s.channel < 8
  }

  /** The check compares with `>`: the id equal to the number of drivers passes. */
  predicate GoodAction(c: Configuration, a: Action) {
    a.Actuate? ==> a.driverId <= |c.driverPins|
  }

  predicate GoodPin(pins: seq<U8>, k: nat)
    requires k < |pins|
  {
    2 <= pins[k] <= 27 && pins[k] !in pins[..k]
  }

  predicate SensorsGood(c: Configuration, n: nat)
    requires n <= |AllSensors(c.sensorGroups)|
  {
    forall k :: 0 <= k < n ==> GoodSensor(c, AllSensors(c.sensorGroups)[k])
  }

  predicate ActionsGood(c: Configuration, n: nat)
    requires n <= |AllActions(c)|
  {
    forall k :: 0 <= k < n ==> GoodAction(c, AllActions(c)[k])
  }

  predicate PinsGood(c: Configuration, n: nat)
    requires n <= |AllPins(c)|
  {
    forall k :: 0 <= k < n ==> GoodPin(AllPins(c), k)
  }

  /** A configuration validation accepts. */
  predicate Sound(c: Configuration) {
    && c.spiFrequencyClk >= SPI_MIN_FREQUENCY
    && SensorsGood(c, |AllSensors(c.sensorGroups)|)
    && ActionsGood(c, |AllActions(c)|)
    && PinsGood(c, |AllPins(c)|)
  }

  /** The error names the first thing that is wrong: everything checked before it is in order. */
  predicate Blames(c: Configuration, e: Error) {
    if c.spiFrequencyClk < SPI_MIN_FREQUENCY then e == ClockTooSlow
    else
      var sensors, actions, pins := AllSensors(c.sensorGroups), AllActions(c), AllPins(c);
      match e
      case ClockTooSlow => false
      case NoSuchAdc(a) =>
        exists k :: 0 <= k < |sensors| && SensorsGood(c, k) && sensors[k].adc == a && a >= |c.adcCs|
      case BadChannel(ch) =>
        exists k :: 0 <= k < |sensors| && SensorsGood(c, k) && sensors[k].channel == ch && ch >= 8
                    && sensors[k].adc < |c.adcCs|
      case NoSuchDriver(d) =>
        && SensorsGood(c, |sensors|)
        && exists k :: 0 <= k < |actions| && ActionsGood(c, k) && actions[k].Actuate? && actions[k].driverId == d
                       && d > |c.driverPins|
      case ReservedPin(p) =>
        && SensorsGood(c, |sensors|) && ActionsGood(c, |actions|)
        && exists k :: 0 <= k < |pins| && PinsGood(c, k) && pins[k] == p && (p < 2 || p > 27)
      case DuplicatePin(p) =>
        && SensorsGood(c, |sensors|) && ActionsGood(c, |actions|)
        && exists k :: 0 <= k < |pins| && PinsGood(c, k) && pins[k] == p && 2 <= p <= 27 && p in pins[..k]
  }

  lemma {:induction false} AllSensorsPrefix(groups: seq<SensorGroup>, g: nat)
    requires g <= |groups|
    ensures AllSensors(groups[..g]) <= AllSensors(groups)
    decreases |groups|
  {
    if g < |groups| {
      assert groups[..|groups| - 1][..g] == groups[..g];
      AllSensorsPrefix(groups[..|groups| - 1], g);
    } else {
      assert groups[..g] == groups;
    }
  }

  lemma AllSensorsSnoc(groups: seq<SensorGroup>, g: nat)
    requires g < |groups|
    ensures AllSensors(groups[..g + 1]) == AllSensors(groups[..g]) + groups[g].sensors
  {
    assert groups[..g + 1][..g] == groups[..g];
  }

  /** Where the sensors of group `g` are among all sensors. */
  lemma GroupPosition(groups: seq<SensorGroup>, g: nat)
    requires g < |groups|
    ensures |AllSensors(groups[..g + 1])| == |AllSensors(groups[..g])| + |groups[g].sensors| <= |AllSensors(groups)|
    ensures forall s :: 0 <= s < |groups[g].sensors| ==>
              AllSensors(groups)[|AllSensors(groups[..g])| + s] == groups[g].sensors[s]
  {
    hide AllSensors;
    AllSensorsPrefix(groups, g + 1);
    AllSensorsSnoc(groups, g);
    var before, upTo := AllSensors(groups[..g]), AllSensors(groups[..g + 1]);
    forall s | 0 <= s < |groups[g].sensors| ensures AllSensors(groups)[|before| + s] == groups[g].sensors[s] {
      assert AllSensors(groups)[|before| + s] == upTo[|before| + s];
    }
  }

  /** The sensor loop. */
  method CheckSensors(c: Configuration) returns (r: Verdict)
    requires c.spiFrequencyClk >= SPI_MIN_FREQUENCY
    ensures r == Accepted <==> SensorsGood(c, |AllSensors(c.sensorGroups)|)
    ensures r.Invalid? ==> Blames(c, r.error) && (r.error.NoSuchAdc? || r.error.BadChannel?)
  {
    hide AllSensors;
    var groups := c.sensorGroups;
    NoSensors();
    assert groups[..0] == [];
    for g := 0 to |groups|
      invariant |AllSensors(groups[..g])| <= |AllSensors(groups)|
      invariant SensorsGood(c, |AllSensors(groups[..g])|)
    {
      ghost var base := |AllSensors(groups[..g])|;
      GroupPosition(groups, g);
      for s := 0 to |groups[g].sensors|
        invariant SensorsGood(c, base + s)
      {
        var sensor := groups[g].sensors[s];
        assert AllSensors(groups)[base + s] == sensor;
        if sensor.adc >= |c.adcCs| {
          assert !GoodSensor(c, AllSensors(groups)[base + s]);
          return Invalid(NoSuchAdc(sensor.adc));
        }
        if sensor.channel >= 8 {
          assert !GoodSensor(c, AllSensors(groups)[base + s]);
          return Invalid(BadChannel(sensor.channel));
        }
      }
    }
    assert groups[..|groups|] == groups;
    return Accepted;
  }

  lemma NoSensors()
    ensures AllSensors([]) == []
  {
  }

  /** The loop over both sequences. */
  method CheckActions(c: Configuration) returns (r: Verdict)
    requires c.spiFrequencyClk >= SPI_MIN_FREQUENCY && SensorsGood(c, |AllSensors(c.sensorGroups)|)
    ensures r == Accepted <==> ActionsGood(c, |AllActions(c)|)
    ensures r.Invalid? ==> Blames(c, r.error) && r.error.NoSuchDriver?
  {
    var procedures := [c.ignitionSequence, c.estopSequence];
    var done := 0;
    for p := 0 to |procedures|
      invariant done == (if p == 0 then 0 else if p == 1 then |c.ignitionSequence| else |AllActions(c)|)
      invariant done <= |AllActions(c)| && ActionsGood(c, done)
    {
      for i := 0 to |procedures[p]|
        invariant done == (if p == 0 then i else |c.ignitionSequence| + i)
        invariant done <= |AllActions(c)| && ActionsGood(c, done)
      {
        var step := procedures[p][i];
        assert step == AllActions(c)[done];
        if step.Actuate? && step.driverId > |c.driverPins| {
          return Invalid(NoSuchDriver(step.driverId));
        }
        done := done + 1;
      }
    }
    return Accepted;
  }

  /** The loop over the pins, with the growing set of pins in use. */
  method CheckPins(c: Configuration) returns (r: Verdict)
    requires c.spiFrequencyClk >= SPI_MIN_FREQUENCY && SensorsGood(c, |AllSensors(c.sensorGroups)|)
    requires ActionsGood(c, |AllActions(c)|)
    ensures r == Accepted <==> PinsGood(c, |AllPins(c)|)
    ensures r.Invalid? ==> Blames(c, r.error) && (r.error.ReservedPin? || r.error.DuplicatePin?)
  {
    var pins := AllPins(c);
    var pinsUsed: set<U8> := {};
    for k := 0 to |pins|
      invariant PinsGood(c, k)
      invariant forall p :: p in pinsUsed <==> p in pins[..k]
    {
      var pin := pins[k];
      if !IsLegal(pin) {
        assert !GoodPin(pins, k);
        return Invalid(ReservedPin(pin));
      }
      if pin in pinsUsed {
        assert !GoodPin(pins, k);
        return Invalid(DuplicatePin(pin));
      }
      pinsUsed := pinsUsed + {pin};
      assert pins[..k + 1] == pins[..k] + [pin];
    }
    return Accepted;
  }

  /** The whole validation: accepts exactly the sound configurations, and otherwise blames the first
      thing that is wrong. */
  method Validate(c: Configuration) returns (r: Verdict)
    ensures r == Accepted <==> Sound(c)
    ensures r.Invalid? ==> Blames(c, r.error)
  {
    if c.spiFrequencyClk < SPI_MIN_FREQUENCY {
      return Invalid(ClockTooSlow);
    }
    r := CheckSensors(c);
    if r.Invalid? {
      return;
    }
    r := CheckActions(c);
    if r.Invalid? {
      return;
    }
    r := CheckPins(c);
  }

  // ---------------------------------------------------------------------------------------------
  // What is accepted and refused, in the configuration's own terms
  // ---------------------------------------------------------------------------------------------

  /** Where each pin stands among all pins: drivers first, then the bus, then the chip selects. */
  lemma PinOrder(c: Configuration)
    ensures var n := |c.driverPins|;
      && |AllPins(c)| == n + 3 + |c.adcCs|
      && (forall k :: 0 <= k < n ==> AllPins(c)[k] == c.driverPins[k])
      && AllPins(c)[n] == c.spiMosi && AllPins(c)[n + 1] == c.spiMiso && AllPins(c)[n + 2] == c.spiClk
      && (forall k :: 0 <= k < |c.adcCs| ==> AllPins(c)[n + 3 + k] == c.adcCs[k])
  {
  }

  predicate ActionsInTable(acts: seq<Action>, drivers: nat) {
    forall k :: 0 <= k < |acts| && acts[k].Actuate? ==> acts[k].driverId <= drivers
  }

  /** Pins in the legal range, no two alike. */
  predicate PinsUsable(pins: seq<U8>) {
    && (forall k :: 0 <= k < |pins| ==> 2 <= pins[k] <= 27)
    && (forall i, j :: 0 <= i < j < |pins| ==> pins[i] != pins[j])
  }

  predicate SensorsUsable(c: Configuration) {
    forall g, s :: 0 <= g < |c.sensorGroups| && 0 <= s < |c.sensorGroups[g].sensors| ==>
      c.sensorGroups[g].sensors[s].adc < |c.adcCs| && c.sensorGroups[g].sensors[s].channel <= 7
  }

  /** Accepted is exactly: a clock of at least 10 kHz; every sensor on an existing converter and one of its
      eight channels; no id in either sequence above the number of drivers; and all drivers, bus lines and
      chip selects on different pins from 2 to 27. */
  lemma SoundExactly(c: Configuration)
    ensures Sound(c) <==>
            && c.spiFrequencyClk >= 10_000
            && SensorsUsable(c)
            && ActionsInTable(c.ignitionSequence, |c.driverPins|) && ActionsInTable(c.estopSequence, |c.driverPins|)
            && PinsUsable(c.driverPins + [c.spiMosi, c.spiMiso, c.spiClk] + c.adcCs)
  {
    hide AllSensors, SensorsUsable, SensorsGood, ActionsGood, ActionsInTable, PinsUsable, PinsGood;
    SensorsExactly(c);
    ActionsExactly(c);
    PinsExactly(c);
  }

  lemma SensorsExactly(c: Configuration)
    ensures SensorsGood(c, |AllSensors(c.sensorGroups)|) <==> SensorsUsable(c)
  {
    hide AllSensors;
    var groups := c.sensorGroups;
    if SensorsGood(c, |AllSensors(groups)|) {
      forall g, s | 0 <= g < |groups| && 0 <= s < |groups[g].sensors| ensures GoodSensor(c, groups[g].sensors[s]) {
        SensorGood(c, g, s);
      }
    }
    if SensorsUsable(c) {
      forall k | 0 <= k < |AllSensors(groups)| ensures GoodSensor(c, AllSensors(groups)[k]) {
        var g, s := SensorGroupOf(groups, k);
        assert groups[g].sensors[s] == AllSensors(groups)[k];
      }
    }
  }

  lemma {:induction false} SensorGroupOf(groups: seq<SensorGroup>, k: nat) returns (g: nat, s: nat)
    requires k < |AllSensors(groups)|
    ensures g < |groups| && s < |groups[g].sensors| && groups[g].sensors[s] == AllSensors(groups)[k]
    decreases |groups|
  {
    var init := groups[..|groups| - 1];
    if k < |AllSensors(init)| {
      g, s := SensorGroupOf(init, k);
    } else {
      g, s := |groups| - 1, k - |AllSensors(init)|;
    }
  }

  lemma ActionsExactly(c: Configuration)
    ensures ActionsGood(c, |AllActions(c)|) <==>
            ActionsInTable(c.ignitionSequence, |c.driverPins|) && ActionsInTable(c.estopSequence, |c.driverPins|)
  {
    var all, m := AllActions(c), |c.ignitionSequence|;
    assert forall k :: 0 <= k < m ==> all[k] == c.ignitionSequence[k];
    assert forall k :: 0 <= k < |c.estopSequence| ==> all[m + k] == c.estopSequence[k];
    if ActionsGood(c, |all|) {
      assert forall k :: 0 <= k < m ==> GoodAction(c, all[k]);
      forall k | 0 <= k < |c.estopSequence| ensures GoodAction(c, c.estopSequence[k]) {
        assert GoodAction(c, all[m + k]);
      }
    }
    if ActionsInTable(c.ignitionSequence, |c.driverPins|) && ActionsInTable(c.estopSequence, |c.driverPins|) {
      forall k | 0 <= k < |all| ensures GoodAction(c, all[k]) {
        assert all[k] == if k < m then c.ignitionSequence[k] else c.estopSequence[k - m];
      }
    }
  }

  lemma PinsExactly(c: Configuration)
    ensures PinsGood(c, |AllPins(c)|) <==> PinsUsable(c.driverPins + [c.spiMosi, c.spiMiso, c.spiClk] + c.adcCs)
  {
    var pins := c.driverPins + [c.spiMosi, c.spiMiso, c.spiClk] + c.adcCs;
    assert AllPins(c) == pins;
    if PinsGood(c, |pins|) {
      assert forall k :: 0 <= k < |pins| ==> GoodPin(AllPins(c), k);
      forall k | 0 <= k < |pins| ensures 2 <= pins[k] <= 27 {
        assert GoodPin(AllPins(c), k);
      }
      forall i, j | 0 <= i < j < |pins| ensures pins[i] != pins[j] {
        PinsDiffer(pins, i, j);
      }
    }
    if PinsUsable(pins) {
      forall k | 0 <= k < |pins| ensures GoodPin(AllPins(c), k) {
        assert forall i :: 0 <= i < k ==> pins[..k][i] == pins[i] != pins[k];
      }
    }
  }

  /** What a refusal says is true of the configuration. */
  lemma BlamesTruly(c: Configuration, e: Error)
    requires Blames(c, e)
    ensures match e
      case ClockTooSlow => c.spiFrequencyClk < 10_000
      case NoSuchAdc(a) => a >= |c.adcCs|
      case BadChannel(ch) => ch > 7
      case NoSuchDriver(d) => d > |c.driverPins|
      case ReservedPin(p) => p < 2 || p > 27
      case DuplicatePin(p) => exists i, j :: 0 <= i < j < |AllPins(c)| && AllPins(c)[i] == AllPins(c)[j] == p
  {
    hide AllSensors;
    if e.DuplicatePin? && c.spiFrequencyClk >= SPI_MIN_FREQUENCY {
      var pins := AllPins(c);
      var j :| 0 <= j < |pins| && PinsGood(c, j) && pins[j] == e.pin && e.pin in pins[..j];
      var i :| 0 <= i < |pins[..j]| && pins[..j][i] == e.pin;
      assert pins[i] == pins[j] == e.pin;
    }
  }

  // ---------------------------------------------------------------------------------------------
  // What acceptance buys
  // ---------------------------------------------------------------------------------------------

  function SetOf(pins: seq<U8>): (r: set<U8>)
    ensures forall p :: p in r <==> p in pins
  {
    if pins == [] then {}
    else
      assert pins == pins[..|pins| - 1] + [pins[|pins| - 1]];
      SetOf(pins[..|pins| - 1]) + {pins[|pins| - 1]}
  }

  /** The integers from `lo` up to but not including `hi`. */
  function Interval(lo: U8, hi: U8): (r: set<U8>)
    ensures forall p :: p in r <==> lo <= p < hi
    ensures |r| == if lo <= hi then hi - lo else 0
    decreases hi
  {
    if lo >= hi then {} else Interval(lo, hi - 1) + {hi - 1}
  }

  lemma {:induction false} DistinctCount(pins: seq<U8>)
    requires forall k :: 0 <= k < |pins| ==> GoodPin(pins, k)
    ensures |SetOf(pins)| == |pins|
    decreases |pins|
  {
    if pins != [] {
      var init := pins[..|pins| - 1];
      forall k | 0 <= k < |init| ensures GoodPin(init, k) {
        assert GoodPin(pins, k) && init[..k] == pins[..k];
      }
      DistinctCount(init);
      assert GoodPin(pins, |pins| - 1);
    }
  }

  lemma {:induction false} LegalPins(pins: seq<U8>)
    requires forall k :: 0 <= k < |pins| ==> GoodPin(pins, k)
    ensures forall p :: p in SetOf(pins) ==> p in Interval(2, 28)
  {
    forall p | p in SetOf(pins) ensures p in Interval(2, 28) {
      var k :| 0 <= k < |pins| && pins[k] == p;
      assert GoodPin(pins, k);
    }
  }

  lemma SubsetSize(a: set<U8>, b: set<U8>)
    requires a <= b
    ensures |a| <= |b|
  {
    assert b == a + (b - a);
  }

  lemma PinsDiffer(pins: seq<U8>, i: nat, j: nat)
    requires (forall k :: 0 <= k < |pins| ==> GoodPin(pins, k)) && i < j < |pins|
    ensures pins[i] != pins[j]
  {
    assert GoodPin(pins, j) && pins[..j][i] == pins[i];
  }

  lemma FewPins(pins: seq<U8>)
    requires forall k :: 0 <= k < |pins| ==> GoodPin(pins, k)
    ensures |pins| <= 26
  {
    hide GoodPin, SetOf, Interval;
    DistinctCount(pins);
    LegalPins(pins);
    SubsetSize(SetOf(pins), Interval(2, 28));
  }

  lemma SensorGood(c: Configuration, g: nat, s: nat)
    requires SensorsGood(c, |AllSensors(c.sensorGroups)|)
    requires g < |c.sensorGroups| && s < |c.sensorGroups[g].sensors|
    ensures GoodSensor(c, c.sensorGroups[g].sensors[s])
  {
    hide AllSensors, GoodSensor;
    var groups := c.sensorGroups;
    GroupPosition(groups, g);
    assert GoodSensor(c, AllSensors(groups)[|AllSensors(groups[..g])| + s]);
  }

  /** In an accepted configuration all pins in use are different legal pins, so drivers and converters
      together number at most 23; and no sensor can make the sampling loop index past the converters or
      the converter driver's channel assertion fail. */
  lemma AcceptedResources(c: Configuration, g: nat, s: nat)
    requires Sound(c)
    ensures |c.driverPins| + |c.adcCs| <= 23
    ensures forall i, j :: 0 <= i < j < |AllPins(c)| ==> AllPins(c)[i] != AllPins(c)[j]
    ensures g < |c.sensorGroups| && s < |c.sensorGroups[g].sensors| ==>
              c.sensorGroups[g].sensors[s].adc < |c.adcCs| && c.sensorGroups[g].sensors[s].channel < 8
  {
    hide AllSensors, GoodPin;
    var pins := AllPins(c);
    FewPins(pins);
    assert |pins| == |c.driverPins| + 3 + |c.adcCs|;
    forall i, j | 0 <= i < j < |pins| ensures pins[i] != pins[j] {
      PinsDiffer(pins, i, j);
    }
    if g < |c.sensorGroups| && s < |c.sensorGroups[g].sensors| {
      SensorGood(c, g, s);
    }
  }

  function PlanOf(c: Configuration): Plan {
    Plan(c.ignitionSequence, c.estopSequence)
  }

  /** With working pins and no manual command for the first id past the table, an accepted configuration
      keeps the controller from getting stuck if and only if no step of either sequence names that id,
      which the driver check lets through by mistake. */
  lemma AcceptedNeverStuck(c: Configuration, lines: seq<bool>)
    requires Sound(c) && |lines| == |c.driverPins|
    ensures Liveness.NeverStuck(PlanOf(c), lines) <==>
            forall k :: 0 <= k < |AllActions(c)| && AllActions(c)[k].Actuate? ==> AllActions(c)[k].driverId != |c.driverPins|
  {
    Liveness.NeverStuckExactly(PlanOf(c), lines);
    var n, m := |c.driverPins|, |c.ignitionSequence|;
    if Liveness.PlanInRange(PlanOf(c), n) {
      forall k | 0 <= k < |AllActions(c)| && AllActions(c)[k].Actuate? ensures AllActions(c)[k].driverId != n {
        assert AllActions(c)[k] == if k < m then c.ignitionSequence[k] else c.estopSequence[k - m];
      }
    }
    if forall k :: 0 <= k < |AllActions(c)| && AllActions(c)[k].Actuate? ==> AllActions(c)[k].driverId != n {
      forall i | 0 <= i < m && c.ignitionSequence[i].Actuate? ensures c.ignitionSequence[i].driverId < n {
        assert AllActions(c)[i] == c.ignitionSequence[i] && GoodAction(c, AllActions(c)[i]);
      }
      forall i | 0 <= i < |c.estopSequence| && c.estopSequence[i].Actuate? ensures c.estopSequence[i].driverId < n {
        assert AllActions(c)[m + i] == c.estopSequence[i] && GoodAction(c, AllActions(c)[m + i]);
      }
    }
  }

  /** With any manual commands, or with a dashboard that may stop reading, an accepted configuration does
      so only if it has nothing to actuate. */
  lemma AcceptedStuckOtherwise(c: Configuration, lines: seq<bool>)
    requires Sound(c) && |lines| == |c.driverPins|
    ensures Liveness.NeverStuckByCommand(PlanOf(c), lines) <==> DriverLock.NoActuation(AllActions(c))
    ensures Liveness.NeverHangs(PlanOf(c), lines) <==> DriverLock.NoActuation(AllActions(c))
  {
    Liveness.OnlyIdlePlansNeverStuck(PlanOf(c), lines);
    var m := |c.ignitionSequence|;
    if Liveness.NothingToDo(PlanOf(c)) {
      forall k | 0 <= k < |AllActions(c)| ensures AllActions(c)[k].Sleep? {
        assert AllActions(c)[k] == if k < m then c.ignitionSequence[k] else c.estopSequence[k - m];
      }
    }
    if DriverLock.NoActuation(AllActions(c)) {
      assert forall i :: 0 <= i < m ==> AllActions(c)[i] == c.ignitionSequence[i];
      assert forall i :: 0 <= i < |c.estopSequence| ==> AllActions(c)[m + i] == c.estopSequence[i];
    }
  }

  /** The configuration of the repository's own emergency-stop test: no drivers, one actuation of
      driver 0. It is accepted, and an emergency stop under it ends with the guard in EStopping. */
  lemma AcceptedButStuck() returns (c: Configuration)
    ensures Sound(c) && c.driverPins == [] && c.estopSequence == [Actuate(0, true), Actuate(0, false)]
    ensures !Liveness.NeverStuck(PlanOf(c), [])
  {
    c := Configuration(1, [], [], [], [Actuate(0, true), Actuate(0, false)], 11, 12, 13, 50_000, []);
    assert AllSensors(c.sensorGroups) == [];
    assert AllActions(c) == [Actuate(0, true), Actuate(0, false)];
    assert AllPins(c) == [11, 12, 13];
    assert forall k :: 0 <= k < 3 ==> GoodPin(AllPins(c), k);
    AcceptedNeverStuck(c, []);
    assert AllActions(c)[0].driverId == |c.driverPins|;
  }

  /** Constructing a converter asserts that the period is below 100 microseconds. Validation promises
      that, except for the one frequency it accepts at the boundary. */
  lemma ConverterAccepts(c: Configuration)
    requires Sound(c)
    ensures Period(c.spiFrequencyClk) < 100_000 <==> c.spiFrequencyClk != SPI_MIN_FREQUENCY
  {
    var f := c.spiFrequencyClk;
    var p := Period(f);
    assert p * f <= 1_000_000_000 < (p + 1) * f by { DivBounds(1_000_000_000, f); }
    if p >= 100_000 {
      MulMono(100_000, p, f);
    }
  }

  lemma DivBounds(a: nat, b: nat)
    requires b > 0
    ensures (a / b) * b <= a < (a / b + 1) * b
  {
  }

  lemma MulMono(a: nat, b: nat, f: nat)
    requires a <= b
    ensures a * f <= b * f
  {
  }
}
