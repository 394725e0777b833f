/** What the sampling loop promises over whole runs: every reading is logged, an excursion trips the
    emergency stop in time and nothing else does, and transmissions are fresh and not too frequent. */
module SamplingProperties {
  import opened Common
  import opened Configuration
  import opened Sampling
  import RollingAverage

  // ---------------------------------------------------------------------------------------------
  // Log conservation
  // ---------------------------------------------------------------------------------------------

  /** All successful readings of one sensor, in order, as log rows. */
  function Rows(s: Sensor, ticks: seq<Tick>, i: nat): seq<Row>
    requires forall k :: 0 <= k < |ticks| ==> i < |ticks[k].samples|
  {
    if ticks == [] then []
    else
      Rows(s, ticks[..|ticks| - 1], i) +
      (match ticks[|ticks| - 1].samples[i]
       case None => []
       case Some(x) => [Row(x.time, x.value, Calibrate(s, x.value))])
  }

  function Joined(blocks: seq<Block>): seq<Row> {
    if blocks == [] then [] else Joined(blocks[..|blocks| - 1]) + blocks[|blocks| - 1].rows
  }

  /** The rows of the log file. */
  function Logged(blocks: seq<Block>): seq<Row> {
    if blocks == [] then []
    else Logged(blocks[..|blocks| - 1]) + InFile(blocks[|blocks| - 1])
  }

  function InFile(b: Block): seq<Row> {
    if b.written < |b.rows| then b.rows[..b.written] else b.rows
  }

  predicate AllWritten(blocks: seq<Block>) {
    forall b :: 0 <= b < |blocks| ==> blocks[b].written >= |blocks[b].rows|
  }

  predicate Full(blocks: seq<Block>, size: nat) {
    forall b :: 0 <= b < |blocks| ==> |blocks[b].rows| == size
  }

  lemma JoinedSnoc(blocks: seq<Block>, b: Block)
    ensures Joined(blocks + [b]) == Joined(blocks) + b.rows
  {
    assert (blocks + [b])[..|blocks + [b]| - 1] == blocks;
  }

  /** What the log of one sensor keeps, if `rows` are the readings so far. */
  predicate Kept(tr: Track, rows: seq<Row>, size: nat) {
    && Joined(tr.blocks) + tr.queue == rows
    && tr.taken == |rows|
    && (size >= 1 ==> |tr.queue| < size && Full(tr.blocks, size))
  }

  /** The log queue and the flushed blocks hold every reading once, in order; each block has exactly
      `size` rows; the queue is shorter than that. */
  lemma {:induction false} LogConservation(group: SensorGroup, size: nat, start: nat, ticks: seq<Tick>, i: nat)
    requires Runnable(group, ticks) && i < |group.sensors|
    ensures Kept(TrackAfter(group, size, start, ticks, i), Rows(group.sensors[i], ticks, i), size)
    decreases |ticks|
  {
    if ticks != [] {
      hide Kept, Take, Clear, Flush, Slot;
      var before, t := ticks[..|ticks| - 1], ticks[|ticks| - 1];
      LogConservation(group, size, start, before, i);
      var s, tr := group.sensors[i], TrackAfter(group, size, start, before, i);
      KeptPass(s, tr, t.samples[i], Slot(Period(group.frequencyTransmission), start, before, t), t.room[i],
               Rows(s, before, i), Rows(s, ticks, i), size);
    }
  }

  lemma KeptPass(s: Sensor, tr: Track, sample: Option<Sample>, slot: bool, room: nat, before: seq<Row>, rows: seq<Row>, size: nat)
    requires Width(s) >= 1 && Kept(tr, before, size)
    requires rows == before +
      (match sample case None => [] case Some(x) => [Row(x.time, x.value, Calibrate(s, x.value))])
    ensures Kept(Flush(Clear(Take(s, tr, sample), slot), size, room), rows, size)
  {
    hide RollingAverage.Update, OutOfRange, Joined;
    if sample.Some? {
      var row := Row(sample.value.time, sample.value.value, Calibrate(s, sample.value.value));
      assert Joined(tr.blocks) + (tr.queue + [row]) == Joined(tr.blocks) + tr.queue + [row];
    }
    var queue := Take(s, tr, sample).queue;
    JoinedSnoc(tr.blocks, Block(queue, Min(room, |queue|)));
    assert Joined(tr.blocks) + queue + [] == Joined(tr.blocks) + queue;
  }

  /** The log file and the queue together hold every reading if and only if every flush of that sensor
      got all its rows into the file: the others lose what they did not write. */
  lemma LoggedExactly(group: SensorGroup, size: nat, start: nat, ticks: seq<Tick>, i: nat)
    requires Runnable(group, ticks) && i < |group.sensors|
    ensures var tr := TrackAfter(group, size, start, ticks, i);
      Logged(tr.blocks) + tr.queue == Rows(group.sensors[i], ticks, i) <==> AllWritten(tr.blocks)
  {
    LogConservation(group, size, start, ticks, i);
    var tr := TrackAfter(group, size, start, ticks, i);
    LoggedLength(tr.blocks);
  }

  lemma {:induction false} LoggedLength(blocks: seq<Block>)
    ensures AllWritten(blocks) ==> Logged(blocks) == Joined(blocks)
    ensures !AllWritten(blocks) ==> |Logged(blocks)| < |Joined(blocks)|
    ensures |Logged(blocks)| <= |Joined(blocks)|
    decreases |blocks|
  {
    if blocks != [] {
      var init, last := blocks[..|blocks| - 1], blocks[|blocks| - 1];
      LoggedLength(init);
      assert AllWritten(blocks) <==> AllWritten(init) && last.written >= |last.rows| by {
        assert forall b :: 0 <= b < |blocks| ==> blocks[b] == if b < |init| then init[b] else last;
      }
    }
  }

  /** If every log file always has room for a whole queue, the file and the queue together hold every
      reading. */
  lemma {:induction false} RoomSuffices(group: SensorGroup, size: nat, start: nat, ticks: seq<Tick>, i: nat)
    requires Runnable(group, ticks) && i < |group.sensors|
    requires forall k :: 0 <= k < |ticks| ==> ticks[k].room[i] >= size && ticks[k].room[i] >= 1
    ensures var tr := TrackAfter(group, size, start, ticks, i);
      AllWritten(tr.blocks) && Logged(tr.blocks) + tr.queue == Rows(group.sensors[i], ticks, i)
  {
    EveryBlockWritten(group, size, start, ticks, i);
    LoggedExactly(group, size, start, ticks, i);
  }

  lemma {:induction false} EveryBlockWritten(group: SensorGroup, size: nat, start: nat, ticks: seq<Tick>, i: nat)
    requires Runnable(group, ticks) && i < |group.sensors|
    requires forall k :: 0 <= k < |ticks| ==> ticks[k].room[i] >= size && ticks[k].room[i] >= 1
    ensures var tr := TrackAfter(group, size, start, ticks, i);
      AllWritten(tr.blocks) && (size >= 1 ==> |tr.queue| < size) && (size == 0 ==> tr.queue == [])
    decreases |ticks|
  {
    if ticks != [] {
      hide Take, Slot, Clear, Flush;
      var before, t := ticks[..|ticks| - 1], ticks[|ticks| - 1];
      assert forall k :: 0 <= k < |before| ==> before[k] == ticks[k];
      EveryBlockWritten(group, size, start, before, i);
      WrittenPass(group.sensors[i], TrackAfter(group, size, start, before, i), t.samples[i],
                  Slot(Period(group.frequencyTransmission), start, before, t), size, t.room[i]);
    }
  }

  lemma WrittenPass(s: Sensor, tr: Track, sample: Option<Sample>, slot: bool, size: nat, room: nat)
    requires Width(s) >= 1 && AllWritten(tr.blocks) && room >= size && room >= 1
    requires (size >= 1 ==> |tr.queue| < size) && (size == 0 ==> tr.queue == [])
    ensures var tr' := Flush(Clear(Take(s, tr, sample), slot), size, room);
      AllWritten(tr'.blocks) && (size >= 1 ==> |tr'.queue| < size) && (size == 0 ==> tr'.queue == [])
  {
    hide RollingAverage.Update, OutOfRange;
  }

  // ---------------------------------------------------------------------------------------------
  // Which configurations the theorems are about
  // ---------------------------------------------------------------------------------------------

  /** Validation looks at none of these: an accepted configuration is one whose groups can all run if and
      only if no frequency of a group and no width of a rolling average is zero. */
  lemma AcceptedRunnableExactly(c: Configuration)
    requires Sound(c)
    ensures (forall g :: 0 <= g < |c.sensorGroups| ==> Runnable(c.sensorGroups[g], [])) <==>
            && (forall g :: 0 <= g < |c.sensorGroups| ==>
                  && c.sensorGroups[g].frequencyStandby != 0
                  && c.sensorGroups[g].frequencyIgnition != 0
                  && c.sensorGroups[g].frequencyTransmission != 0)
            && (forall k :: 0 <= k < |AllSensors(c.sensorGroups)| ==>
                  AllSensors(c.sensorGroups)[k].rollingAverageWidth != Some(0))
  {
    var groups := c.sensorGroups;
    var sensors := AllSensors(groups);
    if forall g :: 0 <= g < |groups| ==> Runnable(groups[g], []) {
      forall k | 0 <= k < |sensors| ensures sensors[k].rollingAverageWidth != Some(0) {
        var g, s := SensorGroupOf(groups, k);
        assert Runnable(groups[g], []) && Width(groups[g].sensors[s]) >= 1;
      }
    }
    if forall k :: 0 <= k < |sensors| ==> sensors[k].rollingAverageWidth != Some(0) {
      forall g, s | 0 <= g < |groups| && 0 <= s < |groups[g].sensors| ensures Width(groups[g].sensors[s]) >= 1 {
        GroupPosition(groups, g);
        assert sensors[|AllSensors(groups[..g])| + s] == groups[g].sensors[s];
      }
    }
  }

  /** Validation accepts any frequencies and widths. */
  lemma AcceptedWith(groups: seq<SensorGroup>) returns (c: Configuration)
    requires forall k :: 0 <= k < |AllSensors(groups)| ==>
               AllSensors(groups)[k].adc == 0 && AllSensors(groups)[k].channel == 0
    ensures Sound(c) && c.sensorGroups == groups
  {
    hide AllSensors;
    c := Configuration(1, groups, [], [], [], 11, 12, 13, 50_000, [14]);
    assert AllActions(c) == [] && AllPins(c) == [11, 12, 13, 14];
    assert forall k :: 0 <= k < 4 ==> GoodPin(AllPins(c), k);
  }

  lemma OneSensorInAll(group: SensorGroup, sensor: Sensor)
    requires group.sensors == [sensor]
    ensures AllSensors([group]) == [sensor]
  {
    assert [group][..0] == [];
  }

  /** And each of the four can make an accepted configuration one that cannot run. */
  lemma AcceptedNotRunnable(standby: nat, ignition: nat, transmission: nat, width: nat) returns (c: Configuration)
    ensures Sound(c) && |c.sensorGroups| == 1 && |c.sensorGroups[0].sensors| == 1
    ensures Runnable(c.sensorGroups[0], []) <==> standby > 0 && ignition > 0 && transmission > 0 && width > 0
    ensures var group := c.sensorGroups[0];
      && group.frequencyStandby == standby && group.frequencyIgnition == ignition
      && group.frequencyTransmission == transmission && group.sensors[0].rollingAverageWidth == Some(width)
  {
    var sensor := Sensor(None, 0.0, 1.0, Some(width), 0, 0);
    var group := SensorGroup(standby, ignition, transmission, [sensor]);
    OneSensorInAll(group, sensor);
    c := AcceptedWith([group]);
    assert c.sensorGroups[0].sensors[0] == sensor;
  }

  // ---------------------------------------------------------------------------------------------
  // Trips
  // ---------------------------------------------------------------------------------------------

  function Calibrated(rows: seq<Row>): (r: seq<real>)
    ensures |r| == |rows|
  {
    seq(|rows|, k requires 0 <= k < |rows| => rows[k].calibrated)
  }

  /** The rolling average after the first `n` readings. */
  function AverageAt(s: Sensor, rows: seq<Row>, n: nat): real
    requires Width(s) >= 1 && n <= |rows|
  {
    RollingAverage.Average(Seed(s), Width(s), Calibrated(rows)[..n])
  }

  /** Exactly the samples after which the average is out of range have tripped. */
  ghost predicate TripsExact(s: Sensor, rows: seq<Row>, trips: seq<nat>)
    requires Width(s) >= 1
  {
    forall n :: n in trips <==> 1 <= n <= |rows| && OutOfRange(s, AverageAt(s, rows, n))
  }

  lemma TripsNext(s: Sensor, tr: Track, x: Sample, rows: seq<Row>)
    requires Width(s) >= 1 && tr.taken == |rows| && tr.average == AverageAt(s, rows, |rows|) && TripsExact(s, rows, tr.trips)
    ensures var tr' := Take(s, tr, Some(x)); var rows' := rows + [Row(x.time, x.value, Calibrate(s, x.value))];
      tr'.average == AverageAt(s, rows', |rows'|) && TripsExact(s, rows', tr'.trips)
  {
    hide RollingAverage.Update;
    var c := Calibrate(s, x.value);
    var rows' := rows + [Row(x.time, x.value, c)];
    var xs, ys := Calibrated(rows), Calibrated(rows');
    assert ys == xs + [c] && ys[..|ys|] == ys && xs[..|xs|] == xs && ys[..|ys| - 1] == xs;
    var tr' := Take(s, tr, Some(x));
    assert forall n :: 0 <= n <= |rows| ==> ys[..n] == xs[..n];
    assert forall n: nat :: n in tr'.trips <==> n in tr.trips || (OutOfRange(s, tr'.average) && n == |rows'|);
  }

  /** Every row of a run carries the value of the calibration line at its reading. */
  lemma {:induction false} RowsCalibrated(s: Sensor, ticks: seq<Tick>, i: nat, k: nat)
    requires (forall n :: 0 <= n < |ticks| ==> i < |ticks[n].samples|) && k < |Rows(s, ticks, i)|
    ensures var row := Rows(s, ticks, i)[k];
      row.calibrated == row.value as real * s.calibrationSlope + s.calibrationIntercept
    decreases |ticks|
  {
    var before := ticks[..|ticks| - 1];
    if k < |Rows(s, before, i)| {
      RowsCalibrated(s, before, i, k);
    } else {
      var x := ticks[|ticks| - 1].samples[i].value;
      TakeSpelledOut(s.(rollingAverageWidth := None), Track([], None, 0.0, [], [], 0), x);
      assert Rows(s, ticks, i)[k] == Row(x.time, x.value, Calibrate(s, x.value));
    }
  }

  /** The average starts in the middle of the range, at zero without one; and a sensor without a width has
      no memory: its average is its last reading. */
  lemma AverageEnds(s: Sensor, rows: seq<Row>, n: nat)
    requires Width(s) >= 1 && n <= |rows|
    ensures n == 0 && s.range.Some? ==> 2.0 * AverageAt(s, rows, n) == s.range.value.0 + s.range.value.1
    ensures n == 0 && s.range.None? ==> AverageAt(s, rows, n) == 0.0
    ensures n > 0 && s.rollingAverageWidth.None? ==> AverageAt(s, rows, n) == rows[n - 1].calibrated
  {
    if n > 0 {
      assert Calibrated(rows)[..n][n - 1] == rows[n - 1].calibrated;
    }
  }

  /** Over any run, an emergency-stop thread is spawned after exactly those samples of a sensor whose
      rolling average is out of the sensor's range. */
  lemma {:induction false} TripsExactly(group: SensorGroup, size: nat, start: nat, ticks: seq<Tick>, i: nat)
    requires Runnable(group, ticks) && i < |group.sensors|
    ensures var tr, rows := TrackAfter(group, size, start, ticks, i), Rows(group.sensors[i], ticks, i);
      && tr.taken == |rows| && tr.average == AverageAt(group.sensors[i], rows, |rows|)
      && TripsExact(group.sensors[i], rows, tr.trips)
    decreases |ticks|
  {
    hide RollingAverage.Update, RollingAverage.Average, TripsExact, Calibrated, Slot, OutOfRange;
    var s := group.sensors[i];
    if ticks == [] {
      assert Calibrated([]) == [];
      NoTrips(s);
    } else {
      var before, t := ticks[..|ticks| - 1], ticks[|ticks| - 1];
      TripsExactly(group, size, start, before, i);
      if t.samples[i].None? {
        assert Rows(s, before, i) + [] == Rows(s, before, i);
      } else {
        TripsNext(s, TrackAfter(group, size, start, before, i), t.samples[i].value, Rows(s, before, i));
      }
    }
  }

  lemma NoTrips(s: Sensor)
    requires Width(s) >= 1
    ensures TripsExact(s, [], []) && AverageAt(s, [], 0) == Seed(s)
  {
  }

  /** In terms of the range: a sensor with one trips at exactly the readings after which the average is below
      its lower or above its upper limit, and a sensor without one never trips. */
  lemma TripsByRange(group: SensorGroup, size: nat, start: nat, ticks: seq<Tick>, i: nat)
    requires Runnable(group, ticks) && i < |group.sensors|
    ensures var s, tr, rows := group.sensors[i], TrackAfter(group, size, start, ticks, i), Rows(group.sensors[i], ticks, i);
      match s.range
      case None => tr.trips == []
      case Some((lo, hi)) =>
        forall n :: n in tr.trips <==> 1 <= n <= |rows| && (AverageAt(s, rows, n) < lo || hi < AverageAt(s, rows, n))
  {
    hide RollingAverage.Average, AverageAt, Rows, TrackAfter;
    TripsExactly(group, size, start, ticks, i);
    var trips := TrackAfter(group, size, start, ticks, i).trips;
    assert trips != [] ==> trips[0] in trips;
  }

  /** What comes after the readings in a pass touches neither the trips nor the average. */
  lemma RestOfPass(tr: Track, slot: bool, size: nat, room: nat)
    ensures var whole := Flush(Clear(tr, slot), size, room);
      whole.trips == tr.trips && whole.average == tr.average && whole.taken == tr.taken
  {
  }

  lemma TakeKeeps(s: Sensor, tr: Track, sample: Option<Sample>)
    requires Width(s) >= 1
    ensures Joined(Take(s, tr, sample).blocks) + Take(s, tr, sample).queue
         == Joined(tr.blocks) + tr.queue +
            (match sample case None => [] case Some(x) => [Row(x.time, x.value, Calibrate(s, x.value))])
  {
    hide RollingAverage.Update, OutOfRange, Joined;
  }

  lemma RowsSnoc(s: Sensor, before: seq<Tick>, t: Tick, i: nat)
    requires i < |t.samples| && forall k :: 0 <= k < |before| ==> i < |before[k].samples|
    requires forall k :: 0 <= k < |before + [t]| ==> i < |(before + [t])[k].samples|
    ensures Rows(s, before + [t], i) == Rows(s, before, i) +
      (match t.samples[i] case None => [] case Some(x) => [Row(x.time, x.value, Calibrate(s, x.value))])
  {
    assert (before + [t])[..|before + [t]| - 1] == before;
  }

  /** The pass in which a message is refused: its readings are in the queue and have tripped the emergency
      stop just as if the pass had gone on. */
  lemma {:induction false} BrokenPass(group: SensorGroup, size: nat, start: nat, before: seq<Tick>, t: Tick, i: nat)
    requires Runnable(group, before) && Runnable(group, before + [t]) && i < |group.sensors| == |t.samples|
    ensures var s, whole := group.sensors[i], TrackAfter(group, size, start, before + [t], i);
      var broken := Take(s, TrackAfter(group, size, start, before, i), t.samples[i]);
      && Joined(broken.blocks) + broken.queue == Rows(s, before + [t], i)
      && broken.trips == whole.trips && broken.average == whole.average && broken.taken == whole.taken
      && TripsExact(s, Rows(s, before + [t], i), broken.trips)
  {
    hide TrackAfter, Take, Flush, Clear, Rows, Joined, TripsExact, AverageAt, Slot;
    var s, tr := group.sensors[i], TrackAfter(group, size, start, before, i);
    TripsExactly(group, size, start, before + [t], i);
    TrackNext(group, size, start, before, t, i);
    RestOfPass(Take(s, tr, t.samples[i]), Slot(Period(group.frequencyTransmission), start, before, t), size, t.room[i]);
    LogConservation(group, size, start, before, i);
    TakeKeeps(s, tr, t.samples[i]);
    RowsSnoc(s, before, t, i);
  }

  /** No false trip: if the range is not empty and every calibrated reading lies in it, the sensor never
      spawns an emergency stop, whatever the width. */
  lemma NoFalseTrip(group: SensorGroup, size: nat, start: nat, ticks: seq<Tick>, i: nat, lo: real, hi: real)
    requires Runnable(group, ticks) && i < |group.sensors|
    requires group.sensors[i].range == Some((lo, hi)) && lo <= hi
    requires forall k :: 0 <= k < |Rows(group.sensors[i], ticks, i)| ==> lo <= Rows(group.sensors[i], ticks, i)[k].calibrated <= hi
    ensures TrackAfter(group, size, start, ticks, i).trips == []
  {
    var s := group.sensors[i];
    var rows := Rows(s, ticks, i);
    var trips := TrackAfter(group, size, start, ticks, i).trips;
    assert trips != [] ==> trips[0] in trips;
    TripsExactly(group, size, start, ticks, i);
    forall n | 1 <= n <= |rows| ensures !OutOfRange(s, AverageAt(s, rows, n)) {
      var xs := Calibrated(rows)[..n];
      assert lo <= (lo + hi) / 2.0 <= hi;
      RollingAverage.AverageStaysInside(Width(s), Seed(s), xs, lo, hi);
    }
  }

  /** Detection latency. If the average was in range after the first `m` readings and every later one is
      at least `x` above the upper limit, then the sensor has tripped at every later sample number `n`
      with `(n - m) (x - hi) > (width - 1) (hi - average)`; and symmetrically below the lower limit. */
  lemma {:induction false} DetectionLatency(group: SensorGroup, size: nat, start: nat, ticks: seq<Tick>, i: nat,
                         lo: real, hi: real, m: nat, n: nat, x: real)
    requires Runnable(group, ticks) && i < |group.sensors| && group.sensors[i].range == Some((lo, hi))
    requires m < n <= |Rows(group.sensors[i], ticks, i)|
    requires var s, rows := group.sensors[i], Rows(group.sensors[i], ticks, i);
      var a := AverageAt(s, rows, m);
      || (&& a <= hi < x && (forall k :: m <= k < n ==> rows[k].calibrated >= x)
          && (n - m) as real * (x - hi) > (Width(s) - 1) as real * (hi - a))
      || (&& a >= lo > x && (forall k :: m <= k < n ==> rows[k].calibrated <= x)
          && (n - m) as real * (lo - x) > (Width(s) - 1) as real * (a - lo))
    ensures n in TrackAfter(group, size, start, ticks, i).trips
  {
    hide RollingAverage.Average, TrackAfter, Rows, Calibrated;
    var s := group.sensors[i];
    var rows := Rows(s, ticks, i);
    TripsExactly(group, size, start, ticks, i);
    if AverageAt(s, rows, m) <= hi < x {
      ExcursionAbove(s, rows, lo, hi, m, n, x);
    } else {
      ExcursionBelow(s, rows, lo, hi, m, n, x);
    }
  }

  /** The average goes on from where it was. */
  lemma AverageGoesOn(s: Sensor, rows: seq<Row>, m: nat, n: nat)
    requires Width(s) >= 1 && m <= n <= |rows|
    ensures AverageAt(s, rows, n) == RollingAverage.Average(AverageAt(s, rows, m), Width(s), Calibrated(rows)[m..n])
    ensures forall k :: 0 <= k < n - m ==> Calibrated(rows)[m..n][k] == rows[m + k].calibrated
  {
    hide RollingAverage.Average;
    var xs := Calibrated(rows);
    assert xs[..n] == xs[..m] + xs[m..n];
    RollingAverage.AverageAppend(Seed(s), Width(s), xs[..m], xs[m..n]);
  }

  lemma ExcursionAbove(s: Sensor, rows: seq<Row>, lo: real, hi: real, m: nat, n: nat, x: real)
    requires Width(s) >= 1 && s.range == Some((lo, hi)) && m <= n <= |rows|
    requires AverageAt(s, rows, m) <= hi < x && forall k :: m <= k < n ==> rows[k].calibrated >= x
    requires (n - m) as real * (x - hi) > (Width(s) - 1) as real * (hi - AverageAt(s, rows, m))
    ensures OutOfRange(s, AverageAt(s, rows, n))
  {
    hide RollingAverage.Average, AverageAt, Calibrated;
    AverageGoesOn(s, rows, m, n);
    RollingAverage.DetectedAbove(Width(s), AverageAt(s, rows, m), hi, x, Calibrated(rows)[m..n]);
  }

  lemma ExcursionBelow(s: Sensor, rows: seq<Row>, lo: real, hi: real, m: nat, n: nat, x: real)
    requires Width(s) >= 1 && s.range == Some((lo, hi)) && m <= n <= |rows|
    requires AverageAt(s, rows, m) >= lo > x && forall k :: m <= k < n ==> rows[k].calibrated <= x
    requires (n - m) as real * (lo - x) > (Width(s) - 1) as real * (AverageAt(s, rows, m) - lo)
    ensures OutOfRange(s, AverageAt(s, rows, n))
  {
    hide RollingAverage.Average, AverageAt, Calibrated;
    AverageGoesOn(s, rows, m, n);
    RollingAverage.DetectedBelow(Width(s), AverageAt(s, rows, m), lo, x, Calibrated(rows)[m..n]);
  }

  // ---------------------------------------------------------------------------------------------
  // Transmission rate
  // ---------------------------------------------------------------------------------------------

  /** The clock never goes back within a run. */
  predicate Monotone(start: nat, ticks: seq<Tick>) {
    && (forall k :: 0 <= k < |ticks| ==> start <= ticks[k].now <= ticks[k].sendTime <= ticks[k].after)
    && (forall j, k :: 0 <= j < k < |ticks| ==> ticks[j].after <= ticks[k].now)
  }

  /** When the messages of a run were sent. */
  function SendTimes(period: nat, start: nat, ticks: seq<Tick>): seq<nat> {
    if ticks == [] then []
    else
      var before, t := ticks[..|ticks| - 1], ticks[|ticks| - 1];
      SendTimes(period, start, before) + if Slot(period, start, before, t) && t.targeted then [t.sendTime] else []
  }

  /** The end of the last slot before tick `k`, or the start of the run. */
  predicate LastEnded(period: nat, start: nat, ticks: seq<Tick>, k: nat, end: nat)
    requires k <= |ticks|
  {
    || (end == start && NoSlotFrom(period, start, ticks, 0, k))
    || (exists m :: 0 <= m < k && Slot(period, start, ticks[..m], ticks[m]) && end == ticks[m].after
                    && NoSlotFrom(period, start, ticks, m + 1, k))
  }

  predicate NoSlotFrom(period: nat, start: nat, ticks: seq<Tick>, i: nat, k: nat)
    requires k <= |ticks|
  {
    forall m :: i <= m < k ==> !Slot(period, start, ticks[..m], ticks[m])
  }

  lemma {:induction false} LastSlotEnded(period: nat, start: nat, ticks: seq<Tick>, k: nat)
    requires k <= |ticks|
    ensures LastEnded(period, start, ticks, k, LastSlot(period, start, ticks[..k]))
    decreases k
  {
    hide Slot, LastSlot;
    LastSlotNext(period, start, ticks, k);
    if k > 0 {
      LastSlotEnded(period, start, ticks, k - 1);
      if Slot(period, start, ticks[..k - 1], ticks[k - 1]) {
        assert NoSlotFrom(period, start, ticks, k, k);
      } else {
        StillLast(period, start, ticks, k, LastSlot(period, start, ticks[..k - 1]));
      }
    }
  }

  lemma LastSlotNext(period: nat, start: nat, ticks: seq<Tick>, k: nat)
    requires k <= |ticks|
    ensures k == 0 ==> LastSlot(period, start, ticks[..k]) == start
    ensures k > 0 ==> (LastSlot(period, start, ticks[..k]) ==
                       if Slot(period, start, ticks[..k - 1], ticks[k - 1]) then ticks[k - 1].after
                       else LastSlot(period, start, ticks[..k - 1]))
  {
    assert k > 0 ==> ticks[..k][..k - 1] == ticks[..k - 1] && ticks[..k][k - 1] == ticks[k - 1];
  }

  /** A tick that is no slot does not change which was the last. */
  lemma StillLast(period: nat, start: nat, ticks: seq<Tick>, k: nat, end: nat)
    requires 0 < k <= |ticks| && LastEnded(period, start, ticks, k - 1, end)
    requires !Slot(period, start, ticks[..k - 1], ticks[k - 1])
    ensures LastEnded(period, start, ticks, k, end)
  {
    hide Slot;
    if !(end == start && NoSlotFrom(period, start, ticks, 0, k - 1)) {
      var m :| 0 <= m < k - 1 && Slot(period, start, ticks[..m], ticks[m]) && end == ticks[m].after
               && NoSlotFrom(period, start, ticks, m + 1, k - 1);
      assert NoSlotFrom(period, start, ticks, m + 1, k);
    }
  }

  lemma OneEnd(period: nat, start: nat, ticks: seq<Tick>, k: nat, a: nat, b: nat)
    requires k <= |ticks| && LastEnded(period, start, ticks, k, a) && LastEnded(period, start, ticks, k, b)
    ensures a == b
  {
  }

  /** When it is time to transmit: in tick `k`, with the last slot ended at `end`, exactly if `f` times the
      time since then is more than a second. */
  lemma SlotExactly(group: SensorGroup, start: nat, ticks: seq<Tick>, k: nat, end: nat)
    requires group.frequencyTransmission > 0 && k < |ticks|
    requires LastEnded(Period(group.frequencyTransmission), start, ticks, k, end)
    ensures Slot(Period(group.frequencyTransmission), start, ticks[..k], ticks[k]) <==>
            (ticks[k].now - end) * group.frequencyTransmission > 1_000_000_000
  {
    var f := group.frequencyTransmission;
    LastSlotEnded(Period(f), start, ticks, k);
    OneEnd(Period(f), start, ticks, k, end, LastSlot(Period(f), start, ticks[..k]));
    LongerThanPeriod(f, ticks[k].now - end);
  }

  lemma LongerThanPeriod(f: nat, d: int)
    requires f > 0
    ensures d > Period(f) <==> d * f > 1_000_000_000
  {
    var p := Period(f);
    DivBounds(1_000_000_000, f);
    if d > p {
      MulMono(p + 1, d, f);
    } else if d >= 0 {
      MulMono(d, p, f);
    } else {
      MulNegative(d, f);
    }
  }

  lemma MulNegative(d: int, f: nat)
    requires d < 0
    ensures d * f <= 0
  {
  }

  /** Consecutive transmissions are more than a period apart. */
  predicate Spaced(times: seq<nat>, period: nat) {
    forall k :: 0 <= k < |times| - 1 ==> times[k + 1] > times[k] + period
  }

  lemma MonotoneInit(start: nat, ticks: seq<Tick>)
    requires Monotone(start, ticks) && ticks != []
    ensures Monotone(start, ticks[..|ticks| - 1])
    ensures start <= ticks[|ticks| - 1].now <= ticks[|ticks| - 1].sendTime <= ticks[|ticks| - 1].after
    ensures |ticks| > 1 ==> ticks[|ticks| - 2].after <= ticks[|ticks| - 1].now
  {
    var before := ticks[..|ticks| - 1];
    assert forall k :: 0 <= k < |before| ==> before[k] == ticks[k];
  }

  /** A slot never lies ahead of the clock. */
  lemma {:induction false} LastSlotBounds(period: nat, start: nat, ticks: seq<Tick>)
    requires Monotone(start, ticks)
    ensures start <= LastSlot(period, start, ticks)
    ensures LastSlot(period, start, ticks) <= if ticks == [] then start else ticks[|ticks| - 1].after
    decreases |ticks|
  {
    hide Monotone;
    if ticks != [] {
      MonotoneInit(start, ticks);
      LastSlotBounds(period, start, ticks[..|ticks| - 1]);
    }
  }

  lemma {:induction false} TransmissionsSpaced(period: nat, start: nat, ticks: seq<Tick>)
    requires Monotone(start, ticks)
    ensures var times := SendTimes(period, start, ticks);
      Spaced(times, period) && (times != [] ==> times[|times| - 1] <= LastSlot(period, start, ticks))
    decreases |ticks|
  {
    hide Monotone;
    if ticks != [] {
      var before, t := ticks[..|ticks| - 1], ticks[|ticks| - 1];
      MonotoneInit(start, ticks);
      LastSlotBounds(period, start, before);
      TransmissionsSpaced(period, start, before);
      SpacedSnoc(SendTimes(period, start, before), period, t.sendTime);
      assert SendTimes(period, start, before) + [] == SendTimes(period, start, before);
    }
  }

  lemma SpacedSnoc(times: seq<nat>, period: nat, t: nat)
    requires Spaced(times, period)
    ensures times == [] || t > times[|times| - 1] + period ==> Spaced(times + [t], period)
  {
  }

  lemma {:induction false} SpacedOut(times: seq<nat>, period: nat, i: nat, j: nat)
    requires Spaced(times, period) && i <= j < |times|
    ensures times[j] - times[i] >= (j - i) * (period + 1)
    decreases j
  {
    if i < j {
      SpacedOut(times, period, i, j - 1);
      assert times[j - 1 + 1] > times[j - 1] + period;
      assert (j - i) * (period + 1) == (j - 1 - i) * (period + 1) + (period + 1) by { Unfold(j - 1 - i, period + 1); }
    }
  }

  lemma Unfold(a: int, b: int)
    ensures (a + 1) * b == a * b + b
  {
  }

  const SECOND: nat := 1_000_000_000

  /** Message `k` of a run was sent in tick `m`, at its send time, with all that waited then. */
  predicate SentIn(group: SensorGroup, size: nat, start: nat, ticks: seq<Tick>, k: nat, m: nat)
    requires Runnable(group, ticks)
  {
    && m < |ticks| && k < |Messages(group, size, start, ticks)|
    && k < |SendTimes(Period(group.frequencyTransmission), start, ticks)|
    && Runnable(group, ticks[..m]) && |ticks[m].samples| == |group.sensors|
    && Messages(group, size, start, ticks)[k] == MessageOf(Waiting(group, size, start, ticks[..m], ticks[m]))
    && SendTimes(Period(group.frequencyTransmission), start, ticks)[k] == ticks[m].sendTime
  }

  ghost predicate HasTick(group: SensorGroup, size: nat, start: nat, ticks: seq<Tick>, k: nat)
    requires Runnable(group, ticks)
  {
    exists m: nat :: SentIn(group, size, start, ticks, k, m)
  }

  /** The send times are those of the messages, one each and in order. */
  lemma {:induction false} TimesOfMessages(group: SensorGroup, size: nat, start: nat, ticks: seq<Tick>)
    requires Runnable(group, ticks)
    ensures |SendTimes(Period(group.frequencyTransmission), start, ticks)| == |Messages(group, size, start, ticks)|
    ensures forall k: nat :: k < |Messages(group, size, start, ticks)| ==> HasTick(group, size, start, ticks, k)
    decreases |ticks|
  {
    hide Waiting, MessageOf, Slot, LastSlot;
    if ticks != [] {
      var n := |ticks| - 1;
      var before, t := ticks[..n], ticks[n];
      TimesOfMessages(group, size, start, before);
      forall k: nat | k < |Messages(group, size, start, ticks)| ensures HasTick(group, size, start, ticks, k) {
        if k < |Messages(group, size, start, before)| {
          assert HasTick(group, size, start, before, k);
          var m: nat :| SentIn(group, size, start, before, k, m);
          assert before[..m] == ticks[..m] && before[m] == ticks[m];
          assert SentIn(group, size, start, ticks, k, m);
        } else {
          assert SentIn(group, size, start, ticks, k, n);
        }
      }
    }
  }

  /** Any half-open window of one second contains at most `f` transmissions of a group, for every
      configured frequency `f` and any timing of the loop: of the messages of a run, two sent less than a
      second apart have at most `f - 2` between them. */
  lemma {:induction false} RateBound(group: SensorGroup, size: nat, start: nat, ticks: seq<Tick>, i: nat, j: nat, m: nat, n: nat)
    requires Runnable(group, ticks) && Monotone(start, ticks) && i <= j
    requires SentIn(group, size, start, ticks, i, m) && SentIn(group, size, start, ticks, j, n)
    requires ticks[n].sendTime - ticks[m].sendTime < SECOND
    ensures j - i + 1 <= group.frequencyTransmission
  {
    hide Messages, SendTimes, Waiting, MessageOf, Monotone;
    var f := group.frequencyTransmission;
    var p := Period(f);
    var times := SendTimes(p, start, ticks);
    TransmissionsSpaced(p, start, ticks);
    SpacedOut(times, p, i, j);
    FewPeriods(f, j - i);
  }

  /** Fewer than `f` periods, rounded down and one nanosecond more, fit in less than a second. */
  lemma FewPeriods(f: nat, d: nat)
    requires f > 0 && d * (Period(f) + 1) < SECOND
    ensures d < f
  {
    var p := Period(f);
    DivBounds(SECOND, f);
    if f <= d {
      MulMono(f, d, p + 1);
    }
  }

  // ---------------------------------------------------------------------------------------------
  // What is transmitted
  // ---------------------------------------------------------------------------------------------

  /** For each transmission that carries something of sensor `i`: the number of the reading it carries,
      counted from zero. */
  function SentNumbers(group: SensorGroup, start: nat, ticks: seq<Tick>, i: nat): seq<nat>
    requires Runnable(group, ticks) && i < |group.sensors|
  {
    if ticks == [] then []
    else
      var before, t := ticks[..|ticks| - 1], ticks[|ticks| - 1];
      SentNumbers(group, start, before, i) +
      (if Slot(Period(group.frequencyTransmission), start, before, t) && t.targeted
          && |Rows(group.sensors[i], ticks, i)| > SlotMark(group, start, before, i)
       then [|Rows(group.sensors[i], ticks, i)| - 1] else [])
  }

  /** How many readings sensor `i` had made by the end of the last transmission slot. */
  function SlotMark(group: SensorGroup, start: nat, ticks: seq<Tick>, i: nat): nat
    requires Runnable(group, ticks) && i < |group.sensors|
  {
    if ticks == [] then 0
    else
      var before, t := ticks[..|ticks| - 1], ticks[|ticks| - 1];
      if Slot(Period(group.frequencyTransmission), start, before, t) then |Rows(group.sensors[i], ticks, i)|
      else SlotMark(group, start, before, i)
  }

  /** The transmit buffer of a sensor is its latest reading since the last slot, if there is one. */
  predicate Fresh(unsent: Option<Sample>, rows: seq<Row>, mark: nat) {
    && mark <= |rows|
    && (unsent.None? <==> mark == |rows|)
    && (unsent.Some? ==> unsent.value.time == rows[|rows| - 1].time && unsent.value.value == rows[|rows| - 1].value)
  }

  lemma {:induction false} BufferFresh(group: SensorGroup, size: nat, start: nat, ticks: seq<Tick>, i: nat)
    requires Runnable(group, ticks) && i < |group.sensors|
    ensures Fresh(TrackAfter(group, size, start, ticks, i).unsent, Rows(group.sensors[i], ticks, i), SlotMark(group, start, ticks, i))
    decreases |ticks|
  {
    hide RollingAverage.Update;
    if ticks != [] {
      BufferFresh(group, size, start, ticks[..|ticks| - 1], i);
    }
  }

  /** The buffer as the transmission of the last tick finds it. */
  lemma WaitingFresh(group: SensorGroup, size: nat, start: nat, before: seq<Tick>, t: Tick, i: nat)
    requires Runnable(group, before) && Runnable(group, before + [t]) && i < |group.sensors| && |t.samples| == |group.sensors|
    ensures Fresh(Waiting(group, size, start, before, t)[i], Rows(group.sensors[i], before + [t], i), SlotMark(group, start, before, i))
  {
    hide RollingAverage.Update;
    assert (before + [t])[..|before + [t]| - 1] == before;
    BufferFresh(group, size, start, before, i);
  }

  /** The entries of one sensor in a list of messages, for a group whose ids fit in eight bits. */
  function EntriesOf(messages: seq<Message>, i: nat): seq<Entry> {
    if messages == [] then []
    else EntriesOf(messages[..|messages| - 1], i) + OfSensor(messages[|messages| - 1], i)
  }

  function OfSensor(m: Message, i: nat): seq<Entry> {
    if m == [] then []
    else OfSensor(m[..|m| - 1], i) + if m[|m| - 1].sensorId == i then [m[|m| - 1]] else []
  }

  /** The entry made from a buffer. */
  function EntryFor(i: nat, x: Option<Sample>): seq<Entry> {
    match x case None => [] case Some(y) => [Entry(i % 256, y.value, y.time)]
  }

  lemma {:induction false} MessagePrefix(waiting: seq<Option<Sample>>, j: nat)
    requires j <= |waiting|
    ensures MessageOf(waiting[..j]) <= MessageOf(waiting)
    decreases |waiting|
  {
    if j < |waiting| {
      assert waiting[..|waiting| - 1][..j] == waiting[..j];
      MessagePrefix(waiting[..|waiting| - 1], j);
    } else {
      assert waiting[..j] == waiting;
    }
  }

  /** The part of a message that is there because of sensor `i`: from the end of the message for the
      sensors before it to the end of the message for the sensors up to it. */
  function Part(waiting: seq<Option<Sample>>, i: nat): Message
    requires i < |waiting|
  {
    MessagePrefix(waiting, i + 1);
    MessagePrefix(waiting[..i + 1], i);
    assert waiting[..i + 1][..i] == waiting[..i];
    MessageOf(waiting)[|MessageOf(waiting[..i])|..|MessageOf(waiting[..i + 1])|]
  }

  lemma PartIs(waiting: seq<Option<Sample>>, i: nat)
    requires i < |waiting|
    ensures Part(waiting, i) == EntryFor(i, waiting[i])
  {
    MessagePrefix(waiting, i + 1);
    assert waiting[..i + 1][..i] == waiting[..i];
    assert MessageOf(waiting[..i + 1]) == MessageOf(waiting[..i]) + EntryFor(i, waiting[i]);
  }

  /** What sensor `i` has contributed to the messages of a run, in order. */
  function EntriesFrom(group: SensorGroup, size: nat, start: nat, ticks: seq<Tick>, i: nat): seq<Entry>
    requires Runnable(group, ticks) && i < |group.sensors|
    decreases |ticks|
  {
    if ticks == [] then []
    else
      var before, t := ticks[..|ticks| - 1], ticks[|ticks| - 1];
      EntriesFrom(group, size, start, before, i) +
      if Slot(Period(group.frequencyTransmission), start, before, t) && t.targeted
      then Part(Waiting(group, size, start, before, t), i) else []
  }

  /** In a group whose ids fit in eight bits these are the entries with its id. */
  lemma {:induction false} EntriesById(group: SensorGroup, size: nat, start: nat, ticks: seq<Tick>, i: nat)
    requires Runnable(group, ticks) && i < |group.sensors| <= 256
    ensures EntriesOf(Messages(group, size, start, ticks), i) == EntriesFrom(group, size, start, ticks, i)
    decreases |ticks|
  {
    hide Slot, TrackAfter, Take, MessageOf, OfSensor, Part, EntriesOf;
    if ticks == [] {
      NoMessages(i);
    } else {
      var before, t := ticks[..|ticks| - 1], ticks[|ticks| - 1];
      EntriesById(group, size, start, before, i);
      var messages, waiting := Messages(group, size, start, before), Waiting(group, size, start, before, t);
      EntriesSnoc(messages, MessageOf(waiting), i);
      OneEntryEach(waiting, i);
      PartIs(waiting, i);
      assert messages + [] == messages && EntriesOf(messages, i) + [] == EntriesOf(messages, i);
    }
  }

  lemma NoMessages(i: nat)
    ensures EntriesOf([], i) == []
  {
  }

  lemma {:induction false} OneEntryEach(waiting: seq<Option<Sample>>, i: nat)
    requires |waiting| <= 256
    ensures OfSensor(MessageOf(waiting), i) == if i < |waiting| then EntryFor(i, waiting[i]) else []
    decreases |waiting|
  {
    hide OfSensor;
    if waiting == [] {
      NoEntries(i);
    } else {
      var last := |waiting| - 1;
      OneEntryEach(waiting[..last], i);
      var m := MessageOf(waiting[..last]);
      if waiting[last].Some? {
        OfSensorSnoc(m, Entry(last, waiting[last].value.value, waiting[last].value.time), i);
      } else {
        assert m + [] == m;
      }
    }
  }

  lemma NoEntries(i: nat)
    ensures OfSensor([], i) == []
  {
  }

  lemma OfSensorSnoc(m: Message, e: Entry, i: nat)
    ensures OfSensor(m + [e], i) == OfSensor(m, i) + if e.sensorId == i then [e] else []
  {
    assert (m + [e])[..|m + [e]| - 1] == m;
  }

  function EntryOfRow(i: nat, r: Row): Entry {
    Entry(i % 256, r.value, r.time)
  }

  /** The transmitted readings of a sensor are the readings numbered `SentNumbers`, in order. */
  predicate SentRows(entries: seq<Entry>, numbers: seq<nat>, rows: seq<Row>, i: nat) {
    && |entries| == |numbers|
    && forall k :: 0 <= k < |numbers| ==> numbers[k] < |rows| && entries[k] == EntryOfRow(i, rows[numbers[k]])
  }

  predicate Increasing(numbers: seq<nat>) {
    forall j, k :: 0 <= j < k < |numbers| ==> numbers[j] < numbers[k]
  }

  lemma EntriesSnoc(messages: seq<Message>, m: Message, i: nat)
    ensures EntriesOf(messages + [m], i) == EntriesOf(messages, i) + OfSensor(m, i)
  {
    assert (messages + [m])[..|messages + [m]| - 1] == messages;
  }

  /** What has been sent of a sensor: readings in order, none twice, all before the mark. */
  predicate Transmitted(entries: seq<Entry>, numbers: seq<nat>, rows: seq<Row>, mark: nat, i: nat) {
    && SentRows(entries, numbers, rows, i) && Increasing(numbers) && mark <= |rows|
    && forall k :: 0 <= k < |numbers| ==> numbers[k] < mark
  }

  /** The transmit buffer agrees with the log: over a run what a sensor contributes is some of its
      readings in order, none twice, each the latest one at its transmission and made since the slot
      before. */
  lemma {:induction false} TransmitsFresh(group: SensorGroup, size: nat, start: nat, ticks: seq<Tick>, i: nat)
    requires Runnable(group, ticks) && i < |group.sensors|
    ensures Transmitted(EntriesFrom(group, size, start, ticks, i), SentNumbers(group, start, ticks, i),
                        Rows(group.sensors[i], ticks, i), SlotMark(group, start, ticks, i), i)
    decreases |ticks|
  {
    hide EntriesFrom, Rows, SlotMark, Transmitted, Slot, SentNumbers, Waiting, Fresh;
    if ticks == [] {
      NothingSent(group, size, start, i);
    } else {
      var before, t := ticks[..|ticks| - 1], ticks[|ticks| - 1];
      TransmitsFresh(group, size, start, before, i);
      assert ticks == before + [t];
      assert |t.samples| == |group.sensors|;
      EntriesNext(group, size, start, before, t, i);
      NumbersNext(group, start, before, t, i);
      WaitingFresh(group, size, start, before, t, i);
      SendOne(EntriesFrom(group, size, start, before, i), SentNumbers(group, start, before, i),
              Rows(group.sensors[i], before, i), Rows(group.sensors[i], ticks, i), i,
              Waiting(group, size, start, before, t)[i], SlotMark(group, start, before, i), SlotMark(group, start, ticks, i),
              Slot(Period(group.frequencyTransmission), start, before, t) && t.targeted);
    }
  }

  /** One more tick adds to the entries of a sensor what waits for it, in a slot with a target. */
  lemma EntriesNext(group: SensorGroup, size: nat, start: nat, before: seq<Tick>, t: Tick, i: nat)
    requires Runnable(group, before) && Runnable(group, before + [t]) && i < |group.sensors| == |t.samples|
    ensures EntriesFrom(group, size, start, before + [t], i)
         == EntriesFrom(group, size, start, before, i) +
            if Slot(Period(group.frequencyTransmission), start, before, t) && t.targeted
            then EntryFor(i, Waiting(group, size, start, before, t)[i]) else []
  {
    hide Slot, TrackAfter, Take, MessageOf, Part;
    assert (before + [t])[..|before + [t]| - 1] == before;
    PartIs(Waiting(group, size, start, before, t), i);
  }

  lemma NothingSent(group: SensorGroup, size: nat, start: nat, i: nat)
    requires Runnable(group, []) && i < |group.sensors|
    ensures Transmitted(EntriesFrom(group, size, start, [], i), SentNumbers(group, start, [], i),
                        Rows(group.sensors[i], [], i), SlotMark(group, start, [], i), i)
  {
  }

  /** One more tick: in a slot with a target the transmission carries the latest reading, if that one was
      made since the last slot; the rows only grow, and so does the mark. */
  lemma NumbersNext(group: SensorGroup, start: nat, before: seq<Tick>, t: Tick, i: nat)
    requires Runnable(group, before) && Runnable(group, before + [t]) && i < |group.sensors|
    ensures var rows, mark := Rows(group.sensors[i], before + [t], i), SlotMark(group, start, before, i);
      var slot := Slot(Period(group.frequencyTransmission), start, before, t);
      && Rows(group.sensors[i], before, i) <= rows
      && mark <= |Rows(group.sensors[i], before, i)|
      && SlotMark(group, start, before + [t], i) == (if slot then |rows| else mark)
      && SentNumbers(group, start, before + [t], i) == SentNumbers(group, start, before, i) +
           if slot && t.targeted && |rows| > mark then [|rows| - 1] else []
  {
    hide Slot;
    assert (before + [t])[..|before + [t]| - 1] == before;
    MarkBound(group, start, before, i);
  }

  /** One tick: if there is a transmission, it carries what waits, if anything does. */
  lemma SendOne(entries: seq<Entry>, numbers: seq<nat>, rows: seq<Row>, rows': seq<Row>, i: nat,
                waiting: Option<Sample>, mark: nat, mark': nat, sent: bool)
    requires Transmitted(entries, numbers, rows, mark, i) && rows <= rows' && mark <= mark' <= |rows'|
    requires Fresh(waiting, rows', mark) && (sent ==> mark' == |rows'|)
    ensures Transmitted(entries + (if sent then EntryFor(i, waiting) else []),
                        numbers + (if sent && |rows'| > mark then [|rows'| - 1] else []), rows', mark', i)
  {
    if !sent || waiting.None? {
      assert entries + [] == entries && numbers + [] == numbers;
    }
  }

  lemma {:induction false} MarkBound(group: SensorGroup, start: nat, ticks: seq<Tick>, i: nat)
    requires Runnable(group, ticks) && i < |group.sensors|
    ensures SlotMark(group, start, ticks, i) <= |Rows(group.sensors[i], ticks, i)|
    decreases |ticks|
  {
    if ticks != [] {
      MarkBound(group, start, ticks[..|ticks| - 1], i);
    }
  }

  predicate IdsIncrease(m: Message) {
    forall j, k :: 0 <= j < k < |m| ==> m[j].sensorId < m[k].sensorId
  }

  lemma {:induction false} IdsBelow(waiting: seq<Option<Sample>>)
    requires |waiting| <= 256
    ensures IdsIncrease(MessageOf(waiting))
    ensures forall k :: 0 <= k < |MessageOf(waiting)| ==> MessageOf(waiting)[k].sensorId < |waiting|
    decreases |waiting|
  {
    hide MessageOf;
    if waiting == [] {
      NoMessage();
    } else {
      var last := |waiting| - 1;
      IdsBelow(waiting[..last]);
      MessageSnoc(waiting);
    }
  }

  lemma NoMessage()
    ensures MessageOf([]) == []
  {
  }

  lemma MessageSnoc(waiting: seq<Option<Sample>>)
    requires waiting != []
    ensures var last := |waiting| - 1; MessageOf(waiting) == MessageOf(waiting[..last]) + EntryFor(last, waiting[last])
  {
  }

  /** Sensor ids within a message strictly increase, so they are distinct, for every content of the
      buffers, if and only if the group has at most 256 sensors: the index is cut to eight bits. */
  lemma IdsDistinctExactly(n: nat)
    ensures (forall waiting: seq<Option<Sample>> :: |waiting| == n ==> IdsIncrease(MessageOf(waiting))) <==> n <= 256
  {
    if n <= 256 {
      forall waiting: seq<Option<Sample>> | |waiting| == n ensures IdsIncrease(MessageOf(waiting)) {
        IdsBelow(waiting);
      }
    } else {
      // only the first sensor and number 256 have something waiting
      var x := Some(Sample(0, 0));
      var first := [x] + Silent(255);
      FirstOnly(255, x);
      assert (first + [x])[..256] == first;
      var waiting := first + [x] + Silent(n - 257);
      SilentTail(first + [x], n - 257);
      assert MessageOf(waiting) == [Entry(0, 0, 0), Entry(0, 0, 0)];
      assert !IdsIncrease(MessageOf(waiting)) by {
        assert MessageOf(waiting)[0].sensorId == MessageOf(waiting)[1].sensorId;
      }
    }
  }

  function Silent(k: nat): (r: seq<Option<Sample>>)
    ensures |r| == k && forall j :: 0 <= j < k ==> r[j] == None
  {
    seq(k, _ => None)
  }

  lemma {:induction false} SilentTail(waiting: seq<Option<Sample>>, k: nat)
    ensures MessageOf(waiting + Silent(k)) == MessageOf(waiting)
    decreases k
  {
    if k == 0 {
      assert waiting + Silent(0) == waiting;
    } else {
      SilentTail(waiting, k - 1);
      assert (waiting + Silent(k))[..|waiting| + k - 1] == waiting + Silent(k - 1);
      assert (waiting + Silent(k))[|waiting| + k - 1] == None;
      assert MessageOf(waiting) + [] == MessageOf(waiting);
    }
  }

  lemma FirstOnly(k: nat, x: Option<Sample>)
    requires x == Some(Sample(0, 0))
    ensures MessageOf([x] + Silent(k)) == [Entry(0, 0, 0)]
  {
    SilentTail([x], k);
    assert [x][..0] == [];
  }
}
