/** When a schedule can leave the guard stuck: each busy state is attended by a thread that will leave
    it, and every thread ends, unless it fails or waits for the driver lock. */
module Liveness {
  import opened StateGuard
  import opened Protocol
  import opened Solos
  import opened DriverLock

  // ---------------------------------------------------------------------------------------------
  // Every busy state is attended
  // ---------------------------------------------------------------------------------------------

  /** The guard has come to rest. */
  predicate AtRest(s: State) {
    s == Standby || s == Quit
  }

  /** The phase that belongs to a guard state. */
  predicate InPhase(ph: Phase, s: State) {
    match s
    case PreIgnite => ph.IgnPre?
    case Ignite => ph.IgnAct?
    case PostIgnite => ph.IgnPost?
    case EStopping => ph.EsAct?
    case _ => false
  }

  /** If the guard is busy, some thread is in the phase that belongs to its state. */
  ghost predicate Attended(c: Config) {
    AtRest(c.guard) || exists t :: 0 <= t < |c.threads| && InPhase(c.threads[t], c.guard)
  }

  predicate PhaseInRange(ph: Phase, n: nat) {
    match ph
    case IgnAct(rest) => InRange(rest, n)
    case EsAct(rest) => InRange(rest, n)
    case _ => true
  }

  predicate PlanInRange(p: Plan, n: nat) {
    InRange(p.ignition, n) && InRange(p.estop, n)
  }

  /** No lock is poisoned and no thread will index past the `n` driver lines. */
  predicate Healthy(c: Config, n: nat) {
    && |c.lines| == n
    && !c.poisoned
    && forall t :: 0 <= t < |c.threads| ==> PhaseInRange(c.threads[t], n)
  }

  /** A step of thread `t` that performs an action does not end the thread. */
  predicate Unfailing(c: Config, t: nat, gpio: bool)
    requires t < |c.threads|
  {
    NeedsLock(c.threads[t]) ==>
      c.held || (!c.poisoned && gpio && Remaining(c.threads[t])[0].driverId < |c.lines|)
  }

  lemma HealthyStep(p: Plan, c: Config, e: Event, n: nat)
    requires PlanInRange(p, n) && Healthy(c, n) && Benign(e, n)
    ensures Healthy(Next(p, c, e), n)
  {
    if e.Advance? && e.tid < |c.threads| {
      var ph := c.threads[e.tid];
      assert PhaseInRange(ph, n);
      if (ph.IgnAct? || ph.EsAct?) && ph.rest != [] {
        assert InRange(ph.rest[1..], n);
        assert ph.rest[0].Actuate? ==> ph.rest[0].driverId < n;
      }
    }
  }

  /** A thread still in place witnesses the same phase after a step of another thread. */
  lemma AttendedStep(p: Plan, c: Config, e: Event)
    requires Attended(c)
    requires e.Advance? && e.tid < |c.threads| ==> Unfailing(c, e.tid, e.gpio)
    ensures Attended(Next(p, c, e))
  {
    hide AdvanceThread;
    var d := Next(p, c, e);
    if e.Advance? && e.tid < |c.threads| {
      AdvanceOnly(p, c, e.tid, e.gpio);
      if d.moves != c.moves {
        Moved(p, c, e.tid, e.gpio);
      } else {
        Unmoved(p, c, e.tid, e.gpio);
      }
    } else if e.SpawnIgnition? || e.SpawnEStop? {
      assert forall t :: 0 <= t < |c.threads| ==> d.threads[t] == c.threads[t];
    }
  }

  /** A thread that moves the guard is in the phase that belongs to its new state. */
  lemma Moved(p: Plan, c: Config, t: nat, gpio: bool)
    requires t < |c.threads| && AdvanceThread(p, c, t, gpio).moves != c.moves
    ensures var d := AdvanceThread(p, c, t, gpio); AtRest(d.guard) || InPhase(d.threads[t], d.guard)
  {
    hide MayMove;
  }

  /** A step of `t` that leaves the guard alone leaves it attended: the witness is another thread,
      or `t` itself, whose own move was refused or who only worked through its actions. */
  lemma Unmoved(p: Plan, c: Config, t: nat, gpio: bool)
    requires t < |c.threads| && Attended(c) && Unfailing(c, t, gpio)
    requires AdvanceThread(p, c, t, gpio).moves == c.moves
    ensures Attended(AdvanceThread(p, c, t, gpio))
  {
    hide AdvanceThread;
    var d := AdvanceThread(p, c, t, gpio);
    AdvanceOnly(p, c, t, gpio);
    StaysInPhase(p, c, t, gpio);
    if !AtRest(c.guard) {
      var w :| 0 <= w < |c.threads| && InPhase(c.threads[w], c.guard);
      assert InPhase(d.threads[w], d.guard);
    }
  }

  lemma StaysInPhase(p: Plan, c: Config, t: nat, gpio: bool)
    requires t < |c.threads| && Unfailing(c, t, gpio)
    requires AdvanceThread(p, c, t, gpio).moves == c.moves
    ensures var d := AdvanceThread(p, c, t, gpio);
      d.guard == c.guard && (!AtRest(c.guard) && InPhase(c.threads[t], c.guard) ==> InPhase(d.threads[t], c.guard))
  {
    if Remaining(c.threads[t]) != [] {
      hide TryMove, MayMove;
    } else {
      hide Act;
    }
  }

  /** In every interleaving, whatever is spawned and whenever, a busy guard state has a live thread
      in the matching phase. */
  lemma {:induction false} NoStuckState(p: Plan, lines: seq<bool>, es: seq<Event>)
    requires PlanInRange(p, |lines|) && AllBenign(es, |lines|)
    ensures Healthy(Run(p, Init(lines), es), |lines|)
    ensures Attended(Run(p, Init(lines), es))
    decreases |es|
  {
    hide AdvanceThread;
    if es != [] {
      NoStuckState(p, lines, es[..|es| - 1]);
      var c := Run(p, Init(lines), es[..|es| - 1]);
      var e := es[|es| - 1];
      assert Benign(e, |lines|);
      HealthyStep(p, c, e, |lines|);
      if e.Advance? && e.tid < |c.threads| {
        assert PhaseInRange(c.threads[e.tid], |lines|);
      }
      AttendedStep(p, c, e);
    }
  }

  // ---------------------------------------------------------------------------------------------
  // Every schedule ends
  // ---------------------------------------------------------------------------------------------

  /** The number of steps a thread can still take. */
  function StepsLeft(p: Plan, ph: Phase): nat {
    match ph
    case IgnStart => |p.ignition| + 4
    case IgnPre => |p.ignition| + 3
    case IgnAct(rest) => |rest| + 2
    case IgnPost => 1
    case EsStart => |p.estop| + 2
    case EsAct(rest) => |rest| + 1
    case Done(_) => 0
  }

  function TotalLeft(p: Plan, threads: seq<Phase>): nat {
    if threads == [] then 0
    else TotalLeft(p, threads[..|threads| - 1]) + StepsLeft(p, threads[|threads| - 1])
  }

  lemma {:induction false} TotalUpdate(p: Plan, threads: seq<Phase>, t: nat, ph: Phase)
    requires t < |threads|
    ensures TotalLeft(p, threads[t := ph]) == TotalLeft(p, threads) - StepsLeft(p, threads[t]) + StepsLeft(p, ph)
    decreases |threads|
  {
    var last := |threads| - 1;
    if t == last {
      assert threads[t := ph][..last] == threads[..last];
    } else {
      assert threads[t := ph][..last] == threads[..last][t := ph];
      TotalUpdate(p, threads[..last], t, ph);
    }
  }

  /** Nothing is spawned any more: every event is a step of a thread that is live and not kept waiting
      when it happens, or the status listener takes the lock or lets go of it. Pin writes may fail or
      panic. */
  predicate Draining(p: Plan, c: Config, es: seq<Event>)
    decreases |es|
  {
    es == [] ||
    (var b, e := Run(p, c, es[..|es| - 1]), es[|es| - 1];
     && Draining(p, c, es[..|es| - 1])
     && (e.Hold? || e.Release? || (e.Advance? && e.tid < |b.threads| && Live(b.threads[e.tid]) && !Blocked(b, e.tid))))
  }

  /** The steps of threads in a schedule. */
  function StepsTaken(es: seq<Event>): nat {
    if es == [] then 0 else StepsTaken(es[..|es| - 1]) + if es[|es| - 1].Advance? then 1 else 0
  }

  lemma StepShortens(p: Plan, c: Config, t: nat, gpio: bool)
    requires t < |c.threads| && Live(c.threads[t]) && !Blocked(c, t)
    ensures var d := AdvanceThread(p, c, t, gpio);
      && |d.threads| == |c.threads|
      && d.threads == c.threads[t := d.threads[t]]
      && StepsLeft(p, d.threads[t]) < StepsLeft(p, c.threads[t])
  {
    hide MayMove, Act, TryMove;
    match c.threads[t]
    case IgnStart => MoveFrame(c, t, PreIgnite, IgnPre);
    case IgnPre => MoveFrame(c, t, Ignite, IgnAct(p.ignition));
    case IgnAct(rest) =>
      if rest == [] {
        MoveFrame(c, t, PostIgnite, IgnPost);
      } else {
        ActFrame(c, t, rest[0], gpio, Author.Ignition(t), IgnAct(rest[1..]));
      }
    case IgnPost => MoveFrame(c, t, Standby, Done(Finished));
    case EsStart => MoveFrame(c, t, EStopping, EsAct(p.estop));
    case EsAct(rest) =>
      if rest == [] {
        MoveFrame(c, t, Standby, Done(Finished));
      } else {
        ActFrame(c, t, rest[0], gpio, EStop(t), EsAct(rest[1..]));
      }
    case Done(_) =>
  }

  /** Once spawning stops the threads take at most `TotalLeft` steps, from any configuration, with any
      pin faults and however the lock is held and released. */
  lemma {:induction false} ScheduleBound(p: Plan, c: Config, es: seq<Event>)
    requires Draining(p, c, es)
    ensures StepsTaken(es) + TotalLeft(p, Run(p, c, es).threads) <= TotalLeft(p, c.threads)
    decreases |es|
  {
    hide AdvanceThread;
    if es != [] {
      var before, e := es[..|es| - 1], es[|es| - 1];
      ScheduleBound(p, c, before);
      if e.Advance? {
        var b := Run(p, c, before);
        StepShortens(p, b, e.tid, e.gpio);
        TotalUpdate(p, b.threads, e.tid, Next(p, b, e).threads[e.tid]);
      }
    }
  }

  /** A live thread that waits for the lock can go on after one release. */
  lemma ReleaseResumes(p: Plan, c: Config, es: seq<Event>, t: nat, gpio: bool)
    requires Draining(p, c, es)
    requires t < |Run(p, c, es).threads| && Live(Run(p, c, es).threads[t])
    ensures Draining(p, c, es + [Release] + [Advance(t, gpio)])
  {
    hide AdvanceThread;
    var a := es + [Release];
    assert a[..|a| - 1] == es;
    assert (a + [Advance(t, gpio)])[..|a + [Advance(t, gpio)]| - 1] == a;
  }

  /** The listener has the lock and some thread needs it. */
  predicate SomeoneWaits(c: Config) {
    exists t :: 0 <= t < |c.threads| && Blocked(c, t)
  }

  /** With real drivers named, once spawning stops, threads take at most `TotalLeft` steps. When none can
      take another, everything is over and the guard in Standby or Quit, if and only if it is not so
      that the listener has the lock and some thread waits for it. One release lets such a thread go on. */
  lemma {:induction false} DrainsToRest(p: Plan, lines: seq<bool>, es: seq<Event>, tail: seq<Event>)
    requires PlanInRange(p, |lines|) && AllBenign(es, |lines|) && AllBenign(tail, |lines|)
    requires Draining(p, Run(p, Init(lines), es), tail) && Stalled(Run(p, Init(lines), es + tail))
    ensures var c := Run(p, Init(lines), es); var d := Run(p, Init(lines), es + tail);
      && StepsTaken(tail) <= TotalLeft(p, c.threads)
      && (Quiet(d) && AtRest(d.guard) <==> !SomeoneWaits(d))
      && (forall t: nat :: t < |d.threads| && Blocked(d, t) ==> Draining(p, c, tail + [Release] + [Advance(t, true)]))
  {
    hide AdvanceThread;
    var c := Run(p, Init(lines), es);
    ScheduleBound(p, c, tail);
    RunAppend(p, Init(lines), es, tail);
    NoStuckState(p, lines, es + tail);
    var d := Run(p, c, tail);
    assert d.held || forall t :: 0 <= t < |d.threads| ==> !Live(d.threads[t]);
    forall t: nat | t < |d.threads| && Blocked(d, t) ensures Draining(p, c, tail + [Release] + [Advance(t, true)]) {
      ReleaseResumes(p, c, tail, t, true);
    }
  }

  // ---------------------------------------------------------------------------------------------
  // Exactly which plans never get stuck
  // ---------------------------------------------------------------------------------------------

  /** Every fault-free schedule that leaves no thread running leaves the guard at rest. */
  ghost predicate NeverStuck(p: Plan, lines: seq<bool>) {
    forall es :: AllBenign(es, |lines|) && Quiet(Run(p, Init(lines), es))
                 ==> AtRest(Run(p, Init(lines), es).guard)
  }

  /** No pin write of a thread fails; manual commands name what they like. */
  predicate PinsWork(es: seq<Event>) {
    forall i :: 0 <= i < |es| && es[i].Advance? ==> es[i].gpio
  }

  /** The same with any manual commands. */
  ghost predicate NeverStuckByCommand(p: Plan, lines: seq<bool>) {
    forall es :: PinsWork(es) && Quiet(Run(p, Init(lines), es)) ==> AtRest(Run(p, Init(lines), es).guard)
  }

  /** The same without any but harmless commands, but with a status listener that may never let go. */
  ghost predicate NeverHangs(p: Plan, lines: seq<bool>) {
    forall es :: AllBenign(es, |lines|) && Stalled(Run(p, Init(lines), es))
                 ==> AtRest(Run(p, Init(lines), es).guard)
  }

  predicate NothingToDo(p: Plan) {
    NoActuation(p.ignition) && NoActuation(p.estop)
  }

  /** The spawn and the steps that bring a fresh thread to its actions. */
  function Opening(ign: bool): seq<Event> {
    if ign then [SpawnIgnition] + Solo(0, 2) else [SpawnEStop] + Solo(0, 1)
  }

  lemma OpeningRun(p: Plan, lines: seq<bool>, ign: bool)
    ensures var c := Run(p, Init(lines), Opening(ign));
      && c.threads == [ActingPhase(ign, if ign then p.ignition else p.estop)]
      && c.guard == (if ign then Ignite else EStopping)
      && c.lines == lines && !c.poisoned && !c.held
  {
    hide AdvanceThread;
    var e := if ign then SpawnIgnition else SpawnEStop;
    var b := Next(p, Init(lines), e);
    assert b.threads == [if ign then IgnStart else EsStart];
    RunCons(p, Init(lines), e, Solo(0, if ign then 2 else 1));
    if ign {
      IgnitionOpens(p, b, 0);
    } else {
      EStopOpens(p, b, 0);
    }
  }

  /** A run of one thread alone up to action `i` of its sequence. */
  lemma ReachAction(p: Plan, lines: seq<bool>, ign: bool, i: nat) returns (es: seq<Event>)
    requires var acts := if ign then p.ignition else p.estop; i < |acts| && InRange(acts[..i], |lines|)
    ensures AllBenign(es, |lines|) && PinsWork(es)
    ensures var c := Run(p, Init(lines), es);
      && c.threads == [ActingPhase(ign, (if ign then p.ignition else p.estop)[i..])]
      && c.guard == (if ign then Ignite else EStopping)
      && |c.lines| == |lines| && !c.poisoned && !c.held
  {
    var acts := if ign then p.ignition else p.estop;
    OpeningRun(p, lines, ign);
    var c := Run(p, Init(lines), Opening(ign));
    ActsAlone(p, c, 0, ign, acts, i);
    RunAppend(p, Init(lines), Opening(ign), Solo(0, i));
    es := Opening(ign) + Solo(0, i);
    assert c.threads[0 := ActingPhase(ign, acts[i..])] == [ActingPhase(ign, acts[i..])];
  }

  /** A sequence with an id past the table: its thread panics there, with the guard where it was. */
  lemma PanicsAt(p: Plan, lines: seq<bool>, ign: bool, i: nat) returns (es: seq<Event>)
    requires var acts := if ign then p.ignition else p.estop;
      i < |acts| && acts[i].Actuate? && acts[i].driverId >= |lines| && InRange(acts[..i], |lines|)
    ensures AllBenign(es, |lines|)
    ensures Quiet(Run(p, Init(lines), es))
    ensures Run(p, Init(lines), es).guard == (if ign then Ignite else EStopping)
    ensures Run(p, Init(lines), es).poisoned
  {
    var acts := if ign then p.ignition else p.estop;
    var before := ReachAction(p, lines, ign, i);
    es := before + [Advance(0, true)];
    RunSnoc(p, Init(lines), before, Advance(0, true));
    assert acts[i..][0] == acts[i];
  }

  /** A sequence that actuates anything: one manual command for the first id past the table, while its
      thread is at work, ends the thread with the guard where it was and the lock poisoned. */
  lemma PoisonedAt(p: Plan, lines: seq<bool>, ign: bool) returns (es: seq<Event>)
    requires !NoActuation(if ign then p.ignition else p.estop)
    ensures PinsWork(es)
    ensures var c := Run(p, Init(lines), es);
      Quiet(c) && c.poisoned && c.guard == (if ign then Ignite else EStopping)
  {
    var acts := if ign then p.ignition else p.estop;
    var i := FirstActuation(acts);
    var before := ReachAction(p, lines, ign, i);
    var command := Manual(|lines|, true, true);
    es := before + [command] + [Advance(0, true)];
    RunSnoc(p, Init(lines), before, command);
    RunSnoc(p, Init(lines), before + [command], Advance(0, true));
    assert acts[i..][0] == acts[i];
  }

  /** A sequence that actuates anything: its thread waits with the guard where it was if the listener
      takes the lock in time. */
  lemma HungAt(p: Plan, lines: seq<bool>, ign: bool) returns (es: seq<Event>)
    requires !NoActuation(if ign then p.ignition else p.estop)
    ensures AllBenign(es, |lines|)
    ensures var c := Run(p, Init(lines), es);
      Stalled(c) && c.held && c.guard == (if ign then Ignite else EStopping)
  {
    var acts := if ign then p.ignition else p.estop;
    var i := FirstActuation(acts);
    var before := ReachAction(p, lines, ign, i);
    es := before + [Hold];
    RunSnoc(p, Init(lines), before, Hold);
    assert acts[i..][0] == acts[i];
  }

  lemma {:induction false} FirstBad(acts: seq<Action>, n: nat) returns (i: nat)
    requires !InRange(acts, n)
    ensures i < |acts| && acts[i].Actuate? && acts[i].driverId >= n && InRange(acts[..i], n)
    decreases |acts|
  {
    var last := |acts| - 1;
    if InRange(acts[..last], n) {
      assert forall j :: 0 <= j < last ==> acts[..last][j] == acts[j];
      i := last;
    } else {
      i := FirstBad(acts[..last], n);
      assert acts[..last][..i] == acts[..i];
    }
  }

  /** With working pins and no manual command for the first id past the table, every schedule that runs
      out of threads ends in Standby or Quit if and only if every step of both sequences names a driver
      that exists. */
  lemma {:induction false} NeverStuckExactly(p: Plan, lines: seq<bool>)
    ensures NeverStuck(p, lines) <==> PlanInRange(p, |lines|)
  {
    hide AdvanceThread;
    if PlanInRange(p, |lines|) {
      forall es | AllBenign(es, |lines|) && Quiet(Run(p, Init(lines), es))
        ensures AtRest(Run(p, Init(lines), es).guard)
      {
        NoStuckState(p, lines, es);
      }
    } else {
      var ign := !InRange(p.ignition, |lines|);
      var i := FirstBad(if ign then p.ignition else p.estop, |lines|);
      var es := PanicsAt(p, lines, ign, i);
      assert !AtRest(Run(p, Init(lines), es).guard);
    }
  }

  /** Sequences without actuations cannot fail and never wait. */
  lemma {:induction false} HarmlessPlan(p: Plan, lines: seq<bool>, es: seq<Event>)
    requires NothingToDo(p)
    ensures var c := Run(p, Init(lines), es);
      Attended(c) && forall t :: 0 <= t < |c.threads| ==> NoActuation(Remaining(c.threads[t]))
    decreases |es|
  {
    hide AdvanceThread;
    if es != [] {
      HarmlessPlan(p, lines, es[..|es| - 1]);
      var c, e := Run(p, Init(lines), es[..|es| - 1]), es[|es| - 1];
      StepThreads(p, c, e);
      if e.Advance? && e.tid < |c.threads| {
        assert NoActuation(Remaining(c.threads[e.tid]));
        AdvanceOnly(p, c, e.tid, e.gpio);
        RemainingStep(p, c, e.tid, e.gpio);
      }
      AttendedStep(p, c, e);
    }
  }

  /** With any manual commands, or with a listener that need not let go of the lock, only plans that
      actuate nothing never get stuck. */
  lemma {:induction false} OnlyIdlePlansNeverStuck(p: Plan, lines: seq<bool>)
    ensures NeverStuckByCommand(p, lines) <==> NothingToDo(p)
    ensures NeverHangs(p, lines) <==> NothingToDo(p)
  {
    hide AdvanceThread;
    if NothingToDo(p) {
      forall es | Stalled(Run(p, Init(lines), es)) ensures AtRest(Run(p, Init(lines), es).guard) {
        HarmlessPlan(p, lines, es);
        var c := Run(p, Init(lines), es);
        assert forall t :: 0 <= t < |c.threads| ==> NoActuation(Remaining(c.threads[t])) && !Live(c.threads[t]);
      }
      assert forall es :: Quiet(Run(p, Init(lines), es)) ==> Stalled(Run(p, Init(lines), es));
    } else {
      var ign := !NoActuation(p.ignition);
      var poisoned := PoisonedAt(p, lines, ign);
      assert !AtRest(Run(p, Init(lines), poisoned).guard);
      var hung := HungAt(p, lines, ign);
      assert !AtRest(Run(p, Init(lines), hung).guard);
    }
  }
}
