/** The sampling loop of one sensor group (`sensor_listen` in src/data.rs): reading, rolling averages
    and e-stop trips, the log queues, and the transmissions to the dashboard. Times are nanoseconds. */
module Sampling {
  import opened Common
  import opened Configuration
  import RollingAverage

  /** A successful reading: when, and the raw value. */
  datatype Sample = Sample(time: nat, value: nat)

  /** A row of a sensor's log. */
  datatype Row = Row(time: nat, value: nat, calibrated: real)

  /** One flush of a log queue, and how many of its rows reached the file: all of them, or those before
      the first that could not be written. The queue is cleared either way. */
  datatype Block = Block(rows: seq<Row>, written: nat)

  datatype Entry = Entry(sensorId: U8, value: nat, time: nat)

  type Message = seq<Entry>

  /** Everything one pass of the loop gets from outside: what each sensor's converter returned (`None`
      for a failed read), the clock when the transmission is considered, whether a dashboard is
      connected and the message log accepts the message, the clock at the send and after it, and
      how many rows each sensor's log file can take, and whether it can then be flushed. */
  datatype Tick = Tick(
    samples: seq<Option<Sample>>,
    now: nat,
    targeted: bool,
    sendOk: bool,
    sendTime: nat,
    after: nat,
    room: seq<nat>,
    flushes: seq<bool>)

  function Calibrate(s: Sensor, value: nat): real {
    value as real * s.calibrationSlope + s.calibrationIntercept
  }

  function Width(s: Sensor): nat {
    match s.rollingAverageWidth case None => 1 case Some(w) => w
  }

  /** The seed is the middle of the range, so that a sensor does not start out of it. */
  function Seed(s: Sensor): real {
    match s.range case None => 0.0 case Some((lo, hi)) => (lo + hi) / 2.0
  }

  predicate OutOfRange(s: Sensor, average: real) {
    match s.range case None => false case Some((lo, hi)) => average < lo || hi < average
  }

  // ---------------------------------------------------------------------------------------------
  // The loop as a function of its inputs
  // ---------------------------------------------------------------------------------------------

  /** What the loop keeps for one sensor: the log queue, the latest reading not transmitted yet, the
      rolling average; and what it has done: the blocks flushed, the numbers of the samples that
      tripped the emergency stop, and how many samples there were. */
  datatype Track = Track(
    queue: seq<Row>,
    unsent: Option<Sample>,
    average: real,
    blocks: seq<Block>,
    trips: seq<nat>,
    taken: nat)

  function Take(s: Sensor, tr: Track, sample: Option<Sample>): Track
    requires Width(s) >= 1
  {
    match sample
    case None => tr
    case Some(x) =>
      var calibrated := Calibrate(s, x.value);
      var average := RollingAverage.Update(tr.average, Width(s), calibrated);
      tr.(queue := tr.queue + [Row(x.time, x.value, calibrated)],
          unsent := Some(x),
          average := average,
          taken := tr.taken + 1,
          trips := if OutOfRange(s, average) then tr.trips + [tr.taken + 1] else tr.trips)
  }

  function Clear(tr: Track, slot: bool): Track {
    if slot then tr.(unsent := None) else tr
  }

  function Min(a: nat, b: nat): nat {
    if a < b then a else b
  }

  function Flush(tr: Track, size: nat, room: nat): Track {
    if |tr.queue| >= size then tr.(queue := [], blocks := tr.blocks + [Block(tr.queue, Min(room, |tr.queue|))]) else tr
  }

  /** The three periods, which are computed before the loop, and the averages do not divide by zero, and
      the ticks have an entry for every sensor. */
  predicate Runnable(group: SensorGroup, ticks: seq<Tick>) {
    && group.frequencyStandby > 0 && group.frequencyIgnition > 0 && group.frequencyTransmission > 0
    && (forall i :: 0 <= i < |group.sensors| ==> Width(group.sensors[i]) >= 1)
    && (forall k :: 0 <= k < |ticks| ==> |ticks[k].samples| == |ticks[k].room| == |ticks[k].flushes| == |group.sensors|)
  }

  /** The time of the last transmission slot, `start` if there was none. */
  function LastSlot(period: nat, start: nat, ticks: seq<Tick>): nat {
    if ticks == [] then start
    else
      var before, t := ticks[..|ticks| - 1], ticks[|ticks| - 1];
      if t.now > LastSlot(period, start, before) + period then t.after else LastSlot(period, start, before)
  }

  /** Is it time to transmit in tick `t`, after the ticks `before`? */
  predicate Slot(period: nat, start: nat, before: seq<Tick>, t: Tick) {
    t.now > LastSlot(period, start, before) + period
  }

  function TrackAfter(group: SensorGroup, size: nat, start: nat, ticks: seq<Tick>, i: nat): Track
    requires Runnable(group, ticks) && i < |group.sensors|
    decreases |ticks|
  {
    if ticks == [] then Track([], None, Seed(group.sensors[i]), [], [], 0)
    else
      var before, t := ticks[..|ticks| - 1], ticks[|ticks| - 1];
      var slot := Slot(Period(group.frequencyTransmission), start, before, t);
      Flush(Clear(Take(group.sensors[i], TrackAfter(group, size, start, before, i), t.samples[i]), slot), size, t.room[i])
  }

  /** What is waiting to be transmitted when tick `t` gets to it. */
  function Waiting(group: SensorGroup, size: nat, start: nat, before: seq<Tick>, t: Tick): (r: seq<Option<Sample>>)
    requires Runnable(group, before) && |t.samples| == |group.sensors|
    ensures |r| == |group.sensors|
  {
    seq(|group.sensors|, i requires 0 <= i < |group.sensors| =>
      Take(group.sensors[i], TrackAfter(group, size, start, before, i), t.samples[i]).unsent)
  }

  /** A message has an entry for every sensor with something waiting. Its id is the index cut to eight
      bits. */
  function MessageOf(waiting: seq<Option<Sample>>): Message {
    if waiting == [] then []
    else
      var last := |waiting| - 1;
      MessageOf(waiting[..last]) +
      (match waiting[last] case None => [] case Some(x) => [Entry(last % 256, x.value, x.time)])
  }

  function Messages(group: SensorGroup, size: nat, start: nat, ticks: seq<Tick>): seq<Message>
    requires Runnable(group, ticks)
    decreases |ticks|
  {
    if ticks == [] then []
    else
      var before, t := ticks[..|ticks| - 1], ticks[|ticks| - 1];
      Messages(group, size, start, before) +
      (if Slot(Period(group.frequencyTransmission), start, before, t) && t.targeted
       then [MessageOf(Waiting(group, size, start, before, t))] else [])
  }

  /** The message log refuses a message in tick `t`: the loop returns with that error. */
  predicate Breaks(group: SensorGroup, start: nat, before: seq<Tick>, t: Tick)
    requires group.frequencyTransmission > 0
  {
    Slot(Period(group.frequencyTransmission), start, before, t) && t.targeted && !t.sendOk
  }

  // ---------------------------------------------------------------------------------------------
  // The loop as it is written
  // ---------------------------------------------------------------------------------------------

  class Listener {
    const group: SensorGroup
    const size: nat
    const queues: array<seq<Row>>
    const unsent: array<Option<Sample>>
    const averages: array<real>
    const logs: array<seq<Block>>
    const trips: array<seq<nat>>
    const taken: array<nat>
    var lastTransmission: nat
    var messages: seq<Message>

    ghost predicate Valid() {
      && (forall i :: 0 <= i < |group.sensors| ==> Width(group.sensors[i]) >= 1)
      && queues.Length == unsent.Length == averages.Length == logs.Length == trips.Length == taken.Length == |group.sensors|
    }

    ghost function At(i: nat): Track
      requires Valid() && i < |group.sensors|
      reads queues, unsent, averages, logs, trips, taken
    {
      Track(queues[i], unsent[i], averages[i], logs[i], trips[i], taken[i])
    }

    constructor (group: SensorGroup, size: nat, start: nat)
      requires forall i :: 0 <= i < |group.sensors| ==> Width(group.sensors[i]) >= 1
      ensures Valid() && this.group == group && this.size == size && lastTransmission == start && messages == []
      ensures fresh(queues) && fresh(unsent) && fresh(averages) && fresh(logs) && fresh(trips) && fresh(taken)
      ensures forall i :: 0 <= i < |group.sensors| ==>
                averages[i] == match group.sensors[i].range case Some((lo, hi)) => (lo + hi) / 2.0 case None => 0.0
      ensures Runnable(group, []) ==> Agrees(start, [])
    {
      this.group, this.size := group, size;
      var n := |group.sensors|;
      queues := new seq<Row>[n](_ => []);
      unsent := new Option<Sample>[n](_ => None);
      averages := new real[n](i requires 0 <= i < n => Seed(group.sensors[i]));
      logs := new seq<Block>[n](_ => []);
      trips := new seq<nat>[n](_ => []);
      taken := new nat[n](_ => 0);
      lastTransmission, messages := start, [];
    }

    /** Reads one sensor; a failed read changes nothing. A reading is calibrated with slope and intercept,
        queued and kept for transmission; it moves the average, by itself alone if no width is given; and
        it trips if the sensor has a range and the average is out of it. */
    method ReadSensor(idx: nat, sample: Option<Sample>)
      requires Valid() && idx < |group.sensors|
      modifies queues, unsent, averages, trips, taken
      ensures sample.Some? ==>
                var s, x := group.sensors[idx], sample.value;
                var calibrated := Calibrate(s, x.value);
                var w := match s.rollingAverageWidth case None => 1 case Some(n) => n;
                && queues[idx] == old(queues[idx]) + [Row(x.time, x.value, calibrated)]
                && unsent[idx] == sample
                && averages[idx] == RollingAverage.Update(old(averages[idx]), w, calibrated)
                && trips[idx] == old(trips[idx]) +
                     (match s.range
                      case None => []
                      case Some((lo, hi)) => if averages[idx] < lo || averages[idx] > hi then [old(taken[idx]) + 1] else [])
      ensures At(idx) == Take(group.sensors[idx], old(At(idx)), sample)
      ensures forall i :: 0 <= i < |group.sensors| && i != idx ==> At(i) == old(At(i))
    {
      hide RollingAverage.Update, Calibrate, OutOfRange;
      var sensor := group.sensors[idx];
      match sample {
        case None =>
        case Some(x) =>
          TakeSpelledOut(sensor, At(idx), x);
          var calibrated := Calibrate(sensor, x.value);
          queues[idx] := queues[idx] + [Row(x.time, x.value, calibrated)];
          unsent[idx] := Some(x);
          var average := RollingAverage.Update(averages[idx], Width(sensor), calibrated);
          averages[idx] := average;
          taken[idx] := taken[idx] + 1;
          if OutOfRange(sensor, average) {
            trips[idx] := trips[idx] + [taken[idx]];  // an emergency-stop thread is spawned
          }
      }
    }

    /** Reads every sensor once. */
    method ReadSensors(samples: seq<Option<Sample>>)
      requires Valid() && |samples| == |group.sensors|
      modifies queues, unsent, averages, trips, taken
      ensures forall i :: 0 <= i < |group.sensors| ==> At(i) == Take(group.sensors[i], old(At(i)), samples[i])
    {
      hide Take;
      for idx := 0 to |group.sensors|
        invariant forall i :: 0 <= i < idx ==> At(i) == Take(group.sensors[i], old(At(i)), samples[i])
        invariant forall i :: idx <= i < |group.sensors| ==> At(i) == old(At(i))
      {
        ReadSensor(idx, samples[idx]);
      }
    }

    /** Sends what is waiting if it has been long enough, and starts a new slot either way. */
    method TransmitReadings(t: Tick) returns (ok: bool)
      requires Valid() && group.frequencyTransmission > 0
      modifies unsent, this`lastTransmission, this`messages
      ensures var slot := t.now > old(lastTransmission) + Period(group.frequencyTransmission);
        && (ok <==> !(slot && t.targeted && !t.sendOk))
        && (ok ==> lastTransmission == if slot then t.after else old(lastTransmission))
        && (ok ==> messages == old(messages) + if slot && t.targeted then [MessageOf(old(unsent[..]))] else [])
        && (ok ==> forall i :: 0 <= i < |group.sensors| ==> At(i) == Clear(old(At(i)), slot))
        && (!ok ==> messages == old(messages) && forall i :: 0 <= i < |group.sensors| ==> At(i) == old(At(i)))
    {
      if t.now > lastTransmission + Period(group.frequencyTransmission) {
        if t.targeted {
          var message := CollectMessage();
          if !t.sendOk {
            return false;
          }
          messages := messages + [message];
        }
        lastTransmission := t.after;
        forall i | 0 <= i < unsent.Length {
          unsent[i] := None;
        }
      }
      return true;
    }

    /** The enumeration and filter that build the message. */
    method CollectMessage() returns (message: Message)
      ensures message == MessageOf(unsent[..])
    {
      message := [];
      for i := 0 to unsent.Length
        invariant message == MessageOf(unsent[..i])
      {
        assert unsent[..i + 1][..i] == unsent[..i];
        if unsent[i].Some? {
          message := message + [Entry(i % 256, unsent[i].value.value, unsent[i].value.time)];
        }
      }
      assert unsent[..unsent.Length] == unsent[..];
    }

    /** Writes the rows of a queue, one by one until one fails, and flushes the file. */
    method WriteSensorLog(rows: seq<Row>, room: nat, flushes: bool) returns (file: seq<Row>, ok: bool)
      ensures file == rows[..Min(room, |rows|)] && (ok <==> file == rows && flushes)
    {
      file := [];
      for n := 0 to |rows|
        invariant n <= room && file == rows[..n]
      {
        if n == room {
          return file, false;
        }
        file := file + [rows[n]];
      }
      ok := flushes;
    }

    /** Flushes every queue that is full. */
    method FlushLogs(room: seq<nat>, flushes: seq<bool>)
      requires Valid() && |room| == |flushes| == |group.sensors|
      modifies queues, logs
      ensures forall i :: 0 <= i < |group.sensors| ==> At(i) == Flush(old(At(i)), size, room[i])
    {
      for i := 0 to |group.sensors|
        invariant forall j :: 0 <= j < i ==> At(j) == Flush(old(At(j)), size, room[j])
        invariant forall j :: i <= j < |group.sensors| ==> At(j) == old(At(j))
      {
        if |queues[i]| >= size {
          var file, _ := WriteSensorLog(queues[i], room[i], flushes[i]);  // a failure is reported to the user log
          logs[i] := logs[i] + [Block(queues[i], |file|)];
          queues[i] := [];
        }
      }
    }

    /** The listener is where the ticks `before` leave it. */
    ghost predicate Agrees(start: nat, before: seq<Tick>)
      reads this, queues, unsent, averages, logs, trips, taken
    {
      && Valid() && Runnable(group, before)
      && messages == Messages(group, size, start, before)
      && lastTransmission == LastSlot(Period(group.frequencyTransmission), start, before)
      && forall i :: 0 <= i < |group.sensors| ==> At(i) == TrackAfter(group, size, start, before, i)
    }

    /** One pass of the loop. */
    method Pass(t: Tick, ghost start: nat, ghost before: seq<Tick>) returns (ok: bool)
      requires Agrees(start, before) && Runnable(group, before + [t]) && |t.samples| == |t.room| == |t.flushes| == |group.sensors|
      modifies this, queues, unsent, averages, logs, trips, taken
      ensures ok <==> !Breaks(group, start, before, t)
      ensures ok ==> Agrees(start, before + [t])
      ensures !ok ==> messages == Messages(group, size, start, before)
      ensures !ok ==> forall i :: 0 <= i < |group.sensors| ==>
                At(i) == Take(group.sensors[i], TrackAfter(group, size, start, before, i), t.samples[i])
    {
      hide Messages, LastSlot, MessageOf, TrackAfter, Flush, Clear;
      MessagesNext(group, size, start, before, t);
      ReadSensors(t.samples);
      assert unsent[..] == Waiting(group, size, start, before, t);
      ok := TransmitReadings(t);
      if !ok {
        return;
      }
      FlushLogs(t.room, t.flushes);
      forall i | 0 <= i < |group.sensors| ensures At(i) == TrackAfter(group, size, start, before + [t], i) {
        TrackNext(group, size, start, before, t, i);
      }
    }
  }

  /** The calibration is the line with the configured intercept and slope. */
  lemma CalibrationLine(s: Sensor, value: nat)
    ensures Calibrate(s, 0) == s.calibrationIntercept
    ensures Calibrate(s, value + 1) == Calibrate(s, value) + s.calibrationSlope
  {
  }

  /** What one reading does, in terms of the sensor's configuration. */
  lemma TakeSpelledOut(s: Sensor, tr: Track, x: Sample)
    requires Width(s) >= 1
    ensures Calibrate(s, x.value) == x.value as real * s.calibrationSlope + s.calibrationIntercept
    ensures var tr' := Take(s, tr, Some(x)); var calibrated := Calibrate(s, x.value);
      && tr'.queue == tr.queue + [Row(x.time, x.value, calibrated)]
      && tr'.unsent == Some(x) && tr'.blocks == tr.blocks && tr'.taken == tr.taken + 1
      && tr'.average == RollingAverage.Update(tr.average, (match s.rollingAverageWidth case None => 1 case Some(n) => n), calibrated)
      && tr'.trips == tr.trips +
           (match s.range
            case None => []
            case Some((lo, hi)) => if tr'.average < lo || tr'.average > hi then [tr.taken + 1] else [])
  {
    hide RollingAverage.Update;
    assert tr.trips + [] == tr.trips;
  }

  lemma TrackNext(group: SensorGroup, size: nat, start: nat, before: seq<Tick>, t: Tick, i: nat)
    requires Runnable(group, before + [t]) && Runnable(group, before) && i < |group.sensors|
    ensures |t.samples| == |t.room| == |t.flushes| == |group.sensors|
    ensures TrackAfter(group, size, start, before + [t], i)
         == Flush(Clear(Take(group.sensors[i], TrackAfter(group, size, start, before, i), t.samples[i]),
                        Slot(Period(group.frequencyTransmission), start, before, t)),
                  size, t.room[i])
  {
    assert (before + [t])[..|before + [t]| - 1] == before;
    assert (before + [t])[|before|] == t;
  }

  lemma MessagesNext(group: SensorGroup, size: nat, start: nat, before: seq<Tick>, t: Tick)
    requires Runnable(group, before + [t]) && Runnable(group, before) && |t.samples| == |group.sensors|
    ensures Messages(group, size, start, before + [t])
         == Messages(group, size, start, before) +
            (if Slot(Period(group.frequencyTransmission), start, before, t) && t.targeted
             then [MessageOf(Waiting(group, size, start, before, t))] else [])
    ensures LastSlot(Period(group.frequencyTransmission), start, before + [t])
         == if Slot(Period(group.frequencyTransmission), start, before, t) then t.after
            else LastSlot(Period(group.frequencyTransmission), start, before)
  {
    assert (before + [t])[..|before + [t]| - 1] == before;
  }

  /** `sensor_listen`: one pass per tick until the controller quits (the ticks run out) or the message
      log refuses a message. In that last pass the sensors have been read, and nothing else is done. */
  method SensorListen(group: SensorGroup, size: nat, start: nat, ticks: seq<Tick>) returns (ok: bool, l: Listener)
    requires Runnable(group, ticks)
    ensures l.Valid() && l.group == group
    ensures ok ==> forall k :: 0 <= k < |ticks| ==> !Breaks(group, start, ticks[..k], ticks[k])
    ensures ok ==> l.messages == Messages(group, size, start, ticks)
    ensures ok ==> forall i :: 0 <= i < |group.sensors| ==> l.At(i) == TrackAfter(group, size, start, ticks, i)
    ensures !ok ==> exists k :: 0 <= k < |ticks| && Breaks(group, start, ticks[..k], ticks[k])
                      && l.messages == Messages(group, size, start, ticks[..k])
                      && forall i :: 0 <= i < |group.sensors| ==>
                           l.At(i) == Take(group.sensors[i], TrackAfter(group, size, start, ticks[..k], i), ticks[k].samples[i])
  {
    hide Messages, LastSlot, TrackAfter, Take, MessageOf;
    l := new Listener(group, size, start);
    assert ticks[..0] == [];
    for k := 0 to |ticks|
      invariant fresh(l) && fresh(l.queues) && fresh(l.unsent) && fresh(l.averages) && fresh(l.logs) && fresh(l.trips) && fresh(l.taken)
      invariant l.group == group && l.size == size && l.Agrees(start, ticks[..k])
      invariant forall j :: 0 <= j < k ==> !Breaks(group, start, ticks[..j], ticks[j])
    {
      assert ticks[..k + 1] == ticks[..k] + [ticks[k]];
      ok := l.Pass(ticks[k], start, ticks[..k]);
      if !ok {
        return;
      }
    }
    assert ticks[..|ticks|] == ticks;
    ok := true;
  }
}
