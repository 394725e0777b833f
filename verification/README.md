# A verified model of the slonk engine controller

slonk runs a rocket engine stand from a Raspberry Pi: it samples sensors, drives valves through GPIO
pins, takes commands from a dashboard over TCP, and runs an ignition or an emergency-stop sequence when
it is told to, or when a sensor leaves its range. This project models the parts of it whose
correctness is hard to see from the code, and proves what they guarantee over all inputs, all runs and
all interleavings.

**Ignition and emergency stop** (`StateGuard`, `Protocol`, `Solos`, `DriverLock`, `Liveness`,
`Occupancy`, `Serial`, `Cancel`, `Confluence`, `Finality`, `EarlyStandby`, `Execution`). The system is a transition
system: one shared guard with six states, the driver levels behind a mutex that can be poisoned and that
the status listener holds while it reports, and any number of ignition and emergency-stop threads. A
step is one attempted guard move, one driver write or sleep, a spawn, a manual actuation, a shutdown
request, or the listener taking the lock or letting go of it. Theorems are about every event sequence.
`Execution` has the procedures as methods that update the guard and the lines in place, with arbitrary
steps of other threads between any two of their own and while they wait for the lock, and proves each to
be a run of that system.

**The command framer** (`Framing`, `JsonText`, `JsonWords`, `CommandText`). `Framing.ParseFrame` is the byte loop of
the parser and `Framing.HandleClient` the receive loop around it. The first is proved equal to a
specification by counting (backslash runs, unescaped quotes, brace balance), and both are proved against
a concrete JSON syntax (RFC 8259, sections 2 to 7) with all its white space. `CommandText` adds a decoder
for the flat objects that commands are, and takes the statement from bytes to commands; `JsonWords` says
which strings, numbers and names are legal in them, as exactly those an encoder can write.

**The sampling loop** (`Sampling`, `RollingAverage`, `SamplingProperties`). `Sampling.SensorListen` and
the class `Sampling.Listener` update the log queues, transmit buffers and averages of a sensor group as
the loop does; the theorems are about the log, the trips and the transmissions of whole runs.

**The SPI bus and the MCP3208** (`Spi`, `Wire`, `Mcp3208`). `Spi.Transfer` drives pins; the history of
pin operations is the state of the bus. `Mcp3208` adds a converter that sees only its pins.

**Supporting parts.** `Configuration` is the validation of a configuration file and what it buys the
others; `Outgoing` is the channel to the dashboard and its log.

## Where the code and its documentation disagree

The model follows the code.

- The interface document says an emergency stop halts an ongoing ignition. The code never looks at the
  guard between two actions, so it does not. `Cancel.HaltedExactly` and `Cancel.HaltedForGoodExactly`
  say which ignition threads are halted, `Finality.StopIsFinalExactly` says exactly when the drivers
  nevertheless end where the shutoff sequence puts them, `Cancel.EStopUndone` gives a run in which they
  do not, and `Occupancy.OccupancyAttained` shows that any number of ignition threads can come to act
  at once.
- The comment in `emergency_stop` says that a second stop does not interfere with one in progress. The
  guard accepts EStopping from EStopping, so overlapping stops do interleave;
  `Confluence.EStopsConfluent` shows that the driver levels come out the same. The guard is another matter:
  whoever asks takes it from EStopping to Standby, and a new ignition can be accepted while a stop still
  acts. `EarlyStandby.CutShortExactly` says exactly when, and one stop is enough
  (`EarlyStandby.OneStopCutShort`).
- The documentation of the state `Ignite` names Standby as its predecessor; the table says PreIgnite
  (`StateGuard.WalkStructure`).
- Both driver checks compare an id with the number of drivers by `>`, so the first id past the table
  gets through. In a sequence it ends the thread there (`Liveness.NeverStuckExactly`,
  `Configuration.AcceptedNeverStuck`, `Configuration.AcceptedButStuck`). In a manual command it poisons
  the driver lock: from then on no driver moves and no emergency stop with anything to actuate is ever
  carried out (`DriverLock.PoisonFreezes`, `DriverLock.NoStopAfterPoison`,
  `Liveness.OnlyIdlePlansNeverStuck`).
- `driver_status_listen` keeps the driver lock while it writes to the dashboard, without a timeout. While
  the dashboard does not read, every actuation waits (`DriverLock.HeldFreezes`, `Liveness.DrainsToRest`,
  `Liveness.OnlyIdlePlansNeverStuck`).
- Validation accepts a clock of exactly 10 kHz, which the converter's constructor asserts against
  (`Configuration.ConverterAccepts`).
- Sensor ids in a message are indices cut to eight bits (`SamplingProperties.IdsDistinctExactly`).

## How the environment enters

- Scheduling: an event sequence, or for the methods of `Execution.Controller` a function from the
  schedule so far to the steps other threads take next. Sleeps are scheduling points. The contracts of
  those methods are about calls that return: a wait for the driver lock ends with its release, if at all.
- Pin faults: a flag in each event, or a function of the history. In a fault-free run no pin write fails
  and no manual command names the first id past the driver table. Values read from MISO, and the analog inputs of the converters: functions
  of the history of the bus, so they may change at any time.
- The stream from the dashboard: a sequence of bytes and I/O errors. Decoding a frame: a function from
  bytes to a command, given for flat objects by `CommandText.Decode`. Writes to the user log: which work.
- One pass of the sampling loop: the readings, clock values and write results of that pass. Clocks are
  nanoseconds; only the rate bound needs them not to go back. The loop ends when the controller quits,
  which is where the sequence of passes ends.
- The floating-point averages are real numbers. A rolling average has width at least one: with width zero
  a debug build panics, and a release build divides by zero and goes on with an infinite average or NaN.
  All three frequencies of a group are at least one: their periods are computed before the loop, and with
  a zero every build panics there. Validation asks for none of this
  (`SamplingProperties.AcceptedRunnableExactly`).
- The depth counter of the framer is 32 bits wide and wraps around, as in a release build. A stream is
  cut correctly if and only if no object nests deeper than 4294967295, the most such a counter can tell
  from none; a debug build panics past 2147483647.
- Histories (guard moves, driver writes, trips, flushed blocks, what each client received) are kept
  beside the state they describe, to state properties about them.

## Model

| member | source | states |
|---|---|---|
| StateGuard.Guard.constructor | src/state.rs:58-62 | A new guard is in the state it is given. |
| StateGuard.Guard.Status | src/state.rs:70-75 | Reading the guard reports its state. |
| StateGuard.Guard.MoveTo | src/state.rs:85-107 | A move succeeds exactly when the table allows it; a refused one reports both ends and changes nothing. |
| StateGuard.TableByOrigin | src/state.rs:90-96 | The table read by origin: Standby leads to PreIgnite, EStopping and Quit; PreIgnite to Ignite and EStopping; Ignite to PostIgnite and EStopping; PostIgnite and EStopping to Standby and EStopping; Quit nowhere. |
| StateGuard.WalkStructure | src/state.rs:26-52 | In any walk from Standby, Ignite comes two moves after Standby by way of PreIgnite, PostIgnite comes three after it by way of Ignite, and Quit comes from Standby and is last. |
| Protocol.StepMoves | src/state.rs:85-107 | Whatever thread takes a step, the guard changes by one legal move or not at all. |
| Solos.ActsAlone | src/execution.rs:228-244 | A thread left alone performs any number of the actions it has left, in order, and writes nothing else. |
| Solos.IgnitionAlone | src/execution.rs:173-195 | However long it is scheduled, an undisturbed ignition from Standby that has returned left the drivers where its sequence puts them and the guard in Standby, by exactly four moves. |
| Solos.EStopAlone | src/execution.rs:148-162 | The same for an emergency stop, from any state but Quit. |
| Execution.Controller.Attempt | src/execution.rs:178-183 | A thread's attempt to move the shared guard succeeds exactly when the table allows it, adds exactly one step to the schedule and is that step of the protocol; the thread goes on at its next phase or returns the guard's error. |
| Execution.Controller.PerformAction | src/execution.rs:233-240 | One action adds exactly one step to the schedule and is that step of the protocol; the thread panics exactly for an id past the table with the lock sound, and fails exactly on a poisoned lock or a pin fault. |
| Execution.Controller.PerformActions | src/execution.rs:228-244 | The loop over a sequence, waiting for the driver lock before each actuation, is a run of the protocol under any interference, and ends with all of it performed or with the thread returned on the first action that fails. |
| Execution.Controller.AwaitLock | src/execution.rs:235 | A thread that waits for the driver lock has it free when it goes on; meanwhile anything else may have happened, and its own phase has not changed. |
| Execution.Controller.Ignition | src/execution.rs:173-195 | The call is a run of the protocol under any interference, its thread returns with the result of the call, and undisturbed from Standby with the lock free it applies the ignition sequence and returns to Standby. |
| Execution.Controller.EmergencyStop | src/execution.rs:148-162 | The same for the emergency stop, undisturbed from any state but Quit. |
| Execution.Controller.ActuateInline | src/execution.rs:110-114 | A manual actuation under the lock sets the driver asked for and no other, panics and poisons the lock exactly for the id equal to the number of drivers, and is one step of the protocol. |
| Execution.Controller.ActuateChecked | src/execution.rs:104-115 | An id above the number of drivers, and only such an id, is refused, before the lock is asked for and with nothing changed; any other waits for the lock and is actuated. |
| Execution.Controller.SpawnAndRun | src/execution.rs:116-119 | The thread of an ignition command begins as an ignition thread and that of an emergency stop as a stop thread; undisturbed, the one applies the ignition sequence from Standby and the other the shutoff sequence from any state but Quit, and the guard is in Standby again. |
| Execution.Controller.HandleCommand | src/execution.rs:77-137 | Every command is a run of the protocol; with the lock free an actuation touches neither guard nor threads and sets the driver exactly if it exists, the lock is sound and the pin works; an ignition and a stop each run their own procedure in a new thread whose outcome is the result, and undisturbed apply their own sequence. |
| DriverLock.BlockedExactly | src/data.rs:262-291 | A live thread cannot take its step exactly when the status listener has the driver lock and the step is an actuation. |
| DriverLock.HeldFreezes | src/data.rs:262-291 | For as long as the listener keeps the lock no driver moves, whatever else happens, and every thread about to actuate stays there. |
| DriverLock.PoisonFreezes | src/execution.rs:110-114 | Once the lock is poisoned it stays so and no driver ever moves again, whatever happens. |
| DriverLock.NoStopAfterPoison | src/execution.rs:148-162 | Once the lock is poisoned no emergency stop with an actuation ahead of it is ever carried out to its end. |
| DriverLock.NeverBoth | src/data.rs:262-268 | The status listener never holds a poisoned lock, in any run. |
| DriverLock.LevelsAreWritten | src/execution.rs:197-220 | In every run the driver levels are exactly what the recorded writes, in order, make of the initial ones. |
| DriverLock.WriteStep | src/execution.rs:228-244 | A step writes only with a working pin and the lock free and sound, to an existing driver, at most once; and a step without a write changes no level. |
| DriverLock.QuitExactly | src/state.rs:92 | A shutdown request is granted exactly in Standby. |
| Liveness.NoStuckState | src/execution.rs:148-195 | In every interleaving, while the plan names real drivers and the run is fault-free, PreIgnite, Ignite, PostIgnite and EStopping each have a live thread in the matching phase, however long the status listener keeps the lock. |
| Liveness.ScheduleBound | src/execution.rs:228-244 | Once spawning stops, threads take no more steps than they have left, whatever fails and however the lock is held. |
| Liveness.PanicsAt | src/execution.rs:232-238 | A sequence with an id past the driver table has a fault-free run that ends with no thread left, the guard in Ignite or EStopping and the driver lock poisoned. |
| Liveness.NeverStuckExactly | src/execution.rs:148-195 | With working pins and no manual command for the first id past the table, every run that has run out of threads ends in Standby or Quit if and only if both sequences name only drivers that exist. |
| Liveness.OnlyIdlePlansNeverStuck | src/execution.rs:104-115 | With any manual commands, and also with a listener that need not let go of the lock, runs never end or stall outside Standby and Quit if and only if neither sequence actuates anything. |
| Liveness.DrainsToRest | src/data.rs:262-291 | With real drivers named, once spawning stops threads take no more steps than they have left; when none can take another, all have returned and the guard is in Standby or Quit if and only if it is not so that the listener has the lock and a thread waits for it; and every waiting thread can go on after one release. |
| Occupancy.FlowBalance | src/state.rs:90-106 | In any walk of the guard, entries into a state are its exits plus the visit in progress. |
| Occupancy.ExitsSplit | src/state.rs:90-96 | Ignite is left only for PostIgnite or EStopping and PreIgnite only for Ignite or EStopping. |
| Occupancy.OccupancyBound | src/execution.rs:178-186 | In every reachable configuration entries to Ignite and PreIgnite balance, and the threads acting or waiting number at most one for the guard's state and one for each emergency stop accepted out of it. |
| Occupancy.OccupancyAttained | src/execution.rs:178-186 | Both bounds are tight for every number of stops: fault-free runs have n stops accepted out of Ignite and n + 1 threads acting the ignition sequence, and n stops accepted out of PreIgnite and n + 1 threads in their wait. |
| Serial.EStopFreeRunsAreSerial | src/execution.rs:173-195 | While no emergency stop has been accepted, at most one thread is past its first move and its phase is the guard's state; the ignition writes are one whole copy of the sequence for each ignition that reached PostIgnite, then a prefix of one; with any pin faults. |
| Cancel.HarmlessStays | src/execution.rs:178-184 | Outside PreIgnite and without a new ignition, a thread with no actuation left to do never writes again, in any interleaving. |
| Cancel.HaltedExactly | api.md:355-360 | When a stop has just been accepted, with real drivers named and no poisoned lock, an ignition thread can still write a driver without a further ignition if and only if it was acting with an actuation left. |
| Cancel.HaltedForGoodExactly | api.md:355-360 | With further ignitions, in any state but Quit, an ignition thread can write a driver again if and only if it is acting with an actuation left, or has not begun to act and the ignition sequence has one. |
| Cancel.PreIgnitionCancelled | src/execution.rs:178-184 | A thread in its pre-ignition wait when a stop is accepted, with no later ignition before it wakes, is refused Ignite and writes no driver ever, in any interleaving. |
| Cancel.CancelledWaitResumes | src/execution.rs:178-184 | The condition on later ignitions is needed: a run in which the cancelled thread ignites through the gate a second ignition opened, and the second is refused. |
| Cancel.EStopUndone | src/execution.rs:228-244 | A fault-free run from start-up in which a stop runs to its end, and then the ignition it was to halt switches the driver on for good. |
| Finality.StopIsFinalExactly | src/execution.rs:148-162 | From any configuration with real drivers named and a sound lock: every fault-free continuation without manual commands or a new ignition, in which a stop is accepted and nobody acts at the end, leaves the drivers where the shutoff sequence puts them, if and only if what every acting thread has left, and in PreIgnite the ignition a waiting thread can begin, agrees with the shutoff sequence about the last value of each driver it names (or the guard is in Quit, where no stop is accepted). |
| EarlyStandby.CutShortExactly | src/state.rs:90-92 | In EStopping, while a stop acts and no further stop is accepted, a fault-free continuation can have a new ignition accepted before that stop ends if and only if another thread is cooling down from an ignition or acting a stop. |
| EarlyStandby.OneStopCutShort | src/execution.rs:186-192 | From start-up, with any sequences of existing drivers, a fault-free run reaches such a state with one stop only, before its first action. |
| Confluence.ApplyValue | src/execution.rs:228-244 | An uninterrupted sequence leaves each driver it names at its last value there and every other driver alone. |
| Confluence.EStopsConfluent | src/data.rs:154-158 | Any number of overlapping stops, spawned at any time and interleaved action by action while no other step changes a driver level, leave the drivers exactly as one uninterrupted run does, or untouched if none was accepted. |
| Framing.ParseFrame | src/incoming.rs:77-118 | The byte loop is the specification function, from the empty buffer, for every stream and every I/O error. |
| Framing.ScannerMeetsSpec | src/incoming.rs:80-117 | After any prefix: escaped is an odd trailing backslash run, in a string is an odd number of unescaped quotes, and the depth is the brace balance outside strings to 32 bits. |
| Framing.ParseMeetsSpec | src/incoming.rs:85-118 | The parse stops at the least closing brace outside strings with at most one brace open, tells an object from a stray brace there, and consumes exactly up to it. |
| Framing.CutsUnique | src/incoming.rs:85-118 | That specification allows one outcome only. |
| Framing.PrefixFree | src/incoming.rs:85-118 | No frame is a proper prefix of another. |
| Framing.HandleClient | src/server.rs:451-503 | The receive loop acts on each parse in order: a decoded frame is dispatched, a frame that cannot be decoded and a text cut at a stray brace are reported with their bytes, an I/O error is a warning; only a closed connection ends it, or the first failed write to the user log. |
| Framing.NothingLost | src/server.rs:451-479 | On any bytes at all the texts handed on, malformed ones included, and the unfinished rest are the stream: nothing is lost, repeated or reordered. |
| Framing.FaultSeparates | src/server.rs:462-476 | Before an I/O error everything is cut as if the stream had ended there; an error that does not close the connection is reported once and the rest is parsed afresh. |
| Framing.FaultDropsExactly | src/server.rs:462-476 | Such an error costs exactly the bytes since the last stop: with the texts cut before it they are all the bytes, and they contain no stop. |
| JsonText.ValuePasses | src/incoming.rs:93-117 | By mutual induction over JSON values: inside an object any value leaves the scanner as it was, whatever its strings contain, exactly if the counter can tell its depth. |
| JsonText.FramesOne | src/incoming.rs:77-124 | For any JSON object with any white space before it and anything at all after it, one parse cuts off exactly these if and only if the object is not nested too deep for the counter. |
| JsonText.FramesAll | src/server.rs:451-453 | A stream of any objects with any white space between is cut into exactly those objects, in order, if and only if none is nested too deep for the counter. |
| JsonText.CommandsRoundTrip | src/server.rs:451-503 | For any decoder that reads each text as its command, nested objects included, exactly the commands sent are dispatched, in order, and nothing is reported malformed. |
| CommandText.DecodeFlat | src/incoming.rs:120-123 | A flat object is decoded to the command of its members, whatever its white space and the order of its members. |
| JsonWords.StringsExactly | src/incoming.rs:120-121 | A string is legal and stands for given characters if and only if an encoder can write them so: as they are in UTF-8, by one-letter escapes, by code units in either case of digits, or by surrogate pairs. |
| JsonWords.WordsExactly | src/incoming.rs:120-121 | A word is legal if and only if it is one of the three literal names or what the grammar of numbers writes. |
| CommandText.DecodesExactly | src/incoming.rs:25-43 | An object is decoded to a command if and only if all its strings, numbers and literal names are legal, and, escapes resolved, it has the type once and for an actuation the driver id, from 0 to 255, and the value once. |
| CommandText.VerdictExactly | src/server.rs:452-479 | A flat message leads to the dispatch of a command if and only if it spells it, and to a malformed report if and only if it spells none. |
| CommandText.FlatRoundTrip | src/server.rs:451-503 | From bytes to commands: for any flat objects in any layout the client loop dispatches, in order, the command each one spells and reports the others as malformed. |
| CommandText.CommandSpelled | src/incoming.rs:28-43 | Every command has an object, as the interface document gives it, that spells it. |
| RollingAverage.AverageIsWeighted | src/data.rs:139-142 | The average is a weighted sum of the seed and all samples with weights that add up to one. |
| RollingAverage.WeightsNonNegative | src/data.rs:139-142 | None of the weights is negative. |
| RollingAverage.AverageStaysInside | src/data.rs:99-147 | Samples and seed in a range keep the average in it. |
| RollingAverage.DeficitShrinks | src/data.rs:139-142 | Under samples of at least x the distance to x shrinks at least as (w - 1) / (w - 1 + n). |
| RollingAverage.DetectedAbove | src/data.rs:139-147 | From an average a within the limit, samples of at least x above it push the average past it at every n with n (x - hi) > (w - 1) (hi - a). |
| RollingAverage.DetectedBelow | src/data.rs:139-147 | The same below the lower limit. |
| RollingAverage.StepResponse | src/data.rs:139-147 | Under constant samples the average passes the limit exactly when the n-th power of the decay is small enough. |
| Sampling.Listener.ReadSensors | src/data.rs:119-161 | Each sensor's queue, buffer, average and trips move by its own reading, and a failed read changes nothing of it. |
| Sampling.Listener.ReadSensor | src/data.rs:126-160 | A reading is calibrated, queued with its time and raw value and kept for transmission; it moves the average with the configured width, one if there is none; it trips exactly if the sensor has a range and the average is out of it; the other sensors, and a failed read, change nothing. |
| Sampling.CalibrationLine | src/data.rs:134-135 | A reading of zero is calibrated to the intercept, and one count more adds the slope. |
| Sampling.TakeSpelledOut | src/data.rs:134-160 | What one reading does, with the line, the width and the range written out from the configuration. |
| Sampling.Listener.constructor | src/data.rs:84-111 | The averages start in the middle of the range, at zero without one, and everything else is empty. |
| Sampling.Listener.TransmitReadings | src/data.rs:164-186 | Past the period, with a target, one message of all buffers is sent; the slot starts anew and the buffers empty with or without a target; a refused message stops the loop with the buffers kept. |
| Sampling.Listener.CollectMessage | src/data.rs:169-180 | The message has one entry for each full buffer, with the index cut to eight bits as its id. |
| Sampling.Listener.WriteSensorLog | src/data.rs:361-376 | A flush writes its rows in order up to the first that fails, and succeeds exactly if it wrote them all and the file could be flushed. |
| Sampling.Listener.FlushLogs | src/data.rs:188-200 | Exactly the queues that have reached the size are written and cleared. |
| Sampling.SensorListen | src/data.rs:70-215 | The whole loop computes the messages, logs, queues, trips and averages the properties below are about; it stops early exactly when a message is refused, and then the sensors have been read once more and nothing else of that pass is done. |
| SamplingProperties.LogConservation | src/data.rs:117-200 | Flushed rows followed by the queue are all successful readings in order; every block has exactly the buffer size and the queue is shorter. |
| SamplingProperties.LoggedExactly | src/data.rs:188-200 | The file and the queue hold every reading if and only if every flush got all its rows into the file; a flush writes row by row until one fails. |
| SamplingProperties.RoomSuffices | src/data.rs:361-376 | If every log file always has room for a whole queue, the file and the queue hold every reading. |
| SamplingProperties.AcceptedRunnableExactly | src/data.rs:113-142 | An accepted configuration is one all these theorems apply to if and only if no standby, ignition or transmission frequency of a group and no rolling-average width is zero. |
| SamplingProperties.AcceptedNotRunnable | src/config.rs:189-235 | Validation accepts any values of these four, so each of them can make an accepted configuration one that cannot run. |
| SamplingProperties.TripsExactly | src/data.rs:138-160 | A stop is spawned after exactly those readings whose average is out of range. |
| SamplingProperties.TripsByRange | src/data.rs:145-160 | A sensor with a range trips at exactly the readings after which the average is below its lower or above its upper limit; one without never trips. |
| SamplingProperties.RowsCalibrated | src/data.rs:134-136 | Every row of a run carries slope times its raw value plus intercept. |
| SamplingProperties.AverageEnds | src/data.rs:99-142 | The average starts in the middle of the range, or at zero; without a width it is the last reading. |
| SamplingProperties.BrokenPass | src/data.rs:119-181 | The readings of a pass broken off by a refused message are in the queue, and have spawned stops, as if the pass had gone on. |
| SamplingProperties.NoFalseTrip | src/data.rs:99-160 | If all calibrated readings are in range no stop is spawned, whatever the width. |
| SamplingProperties.DetectionLatency | src/data.rs:138-160 | An excursion that began after reading m has tripped at every reading n with (n - m) (x - hi) > (w - 1) (hi - average), and symmetrically. |
| SamplingProperties.SlotExactly | src/data.rs:164-185 | It is time to transmit exactly when f times the time since the last slot ended, or since the start, is more than a second. |
| SamplingProperties.TransmissionsSpaced | src/data.rs:164-185 | Successive transmissions are more than a period apart, for any loop timing. |
| SamplingProperties.TimesOfMessages | src/data.rs:164-185 | Every message of a run was sent in some tick, at its send time, with all that waited then, and the send times of the run are those of its messages in order. |
| SamplingProperties.RateBound | src/data.rs:115-185 | No half-open second has more messages than the configured frequency, although the period is rounded down: two messages of a run sent less than a second apart have at most f - 2 between them. |
| SamplingProperties.BufferFresh | src/data.rs:90-186 | The transmit buffer of a sensor is its latest reading since the last slot, and empty exactly when there is none. |
| SamplingProperties.TransmitsFresh | src/data.rs:136-186 | In a group of any size, what a sensor contributes to the messages is a subsequence of its readings, none twice, each the latest one when it is sent. |
| SamplingProperties.EntriesById | src/data.rs:169-180 | With at most 256 sensors that is what the messages hold under its id. |
| SamplingProperties.IdsDistinctExactly | src/data.rs:169-180 | Ids within every message increase if and only if the group has at most 256 sensors. |
| Spi.TransferBit | src/hardware/spi.rs:109-123 | One bit drives MOSI, raises the clock, samples MISO and lowers the clock, or stops at the first pin that fails. |
| Spi.TransferByte | src/hardware/spi.rs:107-124 | A byte is sent high bit first and the byte received is OR-ed into its place. |
| Spi.Transfer | src/hardware/spi.rs:95-130 | On success the pins saw exactly the transfer and each incoming byte was OR-ed with the byte received; on failure they saw a proper prefix of it and stay as they are. |
| Spi.OrBits | src/hardware/spi.rs:116-117 | A byte received sets its bits in the buffer and clears none. |
| Wire.TransferOnWire | src/hardware/spi.rs:104-127 | A transfer of n bytes is 8 n clock pulses with the bytes on MOSI, high bit first, and takes a bus at rest to a bus at rest. |
| Wire.OneSelected | src/hardware/spi.rs:101-127 | On a disciplined bus at most one device is selected at any time. |
| Wire.SessionsDisciplined | src/server.rs:126-178 | Any devices doing any fault-free transfers on one bus keep it disciplined: clock and MOSI move only while one device is selected. |
| Wire.AfterFault | src/hardware/spi.rs:104-127 | A failed transfer leaves its device selected unless the first write failed, and the next transfer is disciplined in exactly that case. |
| Mcp3208.Read | src/hardware/mod.rs:180-229 | Whatever is connected: without a pin fault a read reports a missing null bit exactly if the level sampled at the twelfth bit is high, and otherwise returns the twelve bits sampled after it, high bit first. |
| Mcp3208.EndToEnd | src/hardware/mod.rs:183-229 | For every channel, the bytes received decode to exactly the sample the converter held in that read, whatever its inputs do before and after, if the converter is connected during the read. |
| Mcp3208.ReadWired | src/hardware/mod.rs:180-229 | Driver and converter together: a read on a bus at rest returns the sample held in it unless a pin fails, and leaves the bus at rest. |
| Mcp3208.ReadsInARow | src/data.rs:119-132 | In any fault-free run of reads of any devices and channels on one bus, with inputs that change all the time, each read returns the sample its device held in that read. |
| Configuration.CheckSensors | src/config.rs:195-205 | The sensor loop accepts exactly when all indices are in range and otherwise blames the first bad one. |
| Configuration.CheckActions | src/config.rs:208-215 | The same for the driver ids of both sequences, with the comparison as written. |
| Configuration.CheckPins | src/config.rs:220-235 | The same for the pins: legal and not used before. |
| Configuration.Validate | src/config.rs:183-239 | Validation accepts exactly the sound configurations and otherwise blames the first thing that is wrong. |
| Configuration.SoundExactly | src/config.rs:183-247 | What is accepted, written out: a clock of at least 10 kHz, every sensor on an existing converter and a channel from 0 to 7, no id in either sequence above the number of drivers, and drivers, bus lines and chip selects on different pins from 2 to 27. |
| Configuration.BlamesTruly | src/config.rs:183-247 | What a refusal says is true: the clock, index, channel, id or pin it names is out of its bounds, or the pin is used twice. |
| Configuration.PinOrder | src/config.rs:221-227 | Pins are checked in the order drivers, MOSI, MISO, clock, chip selects. |
| Configuration.AcceptedResources | src/config.rs:194-247 | All pins in use differ, drivers and converters number at most 23, and every sensor's converter and channel exist. |
| Configuration.AcceptedNeverStuck | src/config.rs:207-215 | With working pins and no manual command for the first id past the table, an accepted configuration never gets stuck if and only if no step names that id. |
| Configuration.AcceptedStuckOtherwise | src/config.rs:207-215 | With any manual commands, and also with a dashboard that may stop reading, it never gets stuck if and only if it has nothing to actuate. |
| Configuration.AcceptedButStuck | src/execution.rs:406-433 | The configuration of the emergency-stop unit test is accepted, and with the drivers it declares a stop can get stuck. |
| Configuration.ConverterAccepts | src/hardware/mod.rs:142-148 | Of the accepted clock frequencies the converter's constructor refuses exactly 10 kHz. |
| Outgoing.DashChannel.constructor | src/outgoing.rs:99-104 | A new channel has no client and an empty log. |
| Outgoing.DashChannel.SetChannel | src/outgoing.rs:169-175 | A connection starts a new session, with nothing received, and leaves the others; setting no channel leaves none open; neither touches the log. |
| Outgoing.DashChannel.Send | src/outgoing.rs:118-153 | A message delivered goes to the last client and no other; a failed delivery closes the channel without an error and without a log line; a failed log write is an error although the client has the message and stays. |
| Outgoing.TargetExactly | src/outgoing.rs:160-175 | There is a target exactly when a client was connected and since then every operation was a send that was delivered. |
| Outgoing.SessionsExactly | src/outgoing.rs:118-175 | There are as many sessions as connections, and each client received exactly the messages sent whole while it was connected, in order, and then what got through of the one whose delivery failed, if any. |
| Outgoing.SilentUntilConnected | src/outgoing.rs:141-148 | After a failed delivery nothing reaches a client or the log until a client connects. |
| Outgoing.LogAgreesExactly | src/outgoing.rs:121-140 | The log is the text of everything delivered whole, client after client, if and only if no line was torn. |
| Outgoing.LogReadBack | src/outgoing.rs:126-139 | Cutting the log at newlines and first commas gives back exactly the messages delivered whole, with their times. |

## Left out

- CommandText.DecodeFlat: objects with nested members are not decoded, and numbers too large for a 64-bit float are taken as legal.
- Rolling averages of width zero: see above.
- RollingAverage.AverageIsWeighted: real arithmetic; rounding, infinities and NaN of 64-bit floats are not modelled, nor in the other theorems about averages.
- Framing.ParseFrame: the depth counter wraps; a debug build panics at that point instead.
- Outgoing.DashChannel.Send: the assertion that a delivery error is an I/O error, and poisoned locks, are not modelled.
- Poisoning of any lock but the driver mutex: no modelled code path panics while it holds another one.
- What a panic does to the rest of the process: a panicking thread is one that has ended, with the driver lock poisoned.
- The TCP listener, file creation, argument handling and thread scopes; the first message of a session, the configuration.
- `driver_status_listen` beyond its hold on the driver lock, `heartbeat` and `write_driver_log`: what they report.
- Waiting for the lock of the dashboard channel: a new client cannot take the channel over while a write to the old one hangs.
- `UserLog`, command log lines, `Display` texts and error conversions.
- Skipping of GPIO lines that cannot be opened, which shifts the indices of later drivers and converters.
- The text of a sensor log row; a flush of a queue is the list of its rows and how many were written.
- A clock that fails, and times before 1970.
- `Dummy` and `ReturnsNumber` hardware and the sample configuration files.
