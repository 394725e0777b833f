/** The procedures of src/execution.rs as they are written: straight-line methods and one loop that
    update the shared guard and the driver lines in place, with every other thread free to run between
    any two of their steps, and while they wait for the driver lock. Each method is proved to be a
    run of the protocol's transition system. The contracts are about calls that return: a call waits
    for ever if the status listener never lets go of the lock. */
module Execution {
  import opened StateGuard
  import opened Protocol
  import opened Solos

  datatype Command = ActuateDriver(driverId: nat, value: bool) | Ignition | EmergencyStop

  datatype CommandResult = Completed | DriverOutOfBounds | Failed(outcome: Outcome)

  /** The state the threads share: the guard, the driver lines behind their mutex, and the phases of
      all threads. What other threads do is an input: after the schedule `trace` they take the steps
      `env(trace)` at the next point where the running thread can be preempted. Whether a pin write
      works is the input `gpio(trace)`. */
  class Controller {
    const plan: Plan
    const guard: Guard
    const lines: array<bool>
    const env: seq<Event> -> seq<Event>
    const gpio: seq<Event> -> bool
    var poisoned: bool
    var held: bool
    var threads: seq<Phase>
    var writes: seq<Write>
    var moves: seq<Move>
    var trace: seq<Event>

    constructor (plan: Plan, drivers: nat, env: seq<Event> -> seq<Event>, gpio: seq<Event> -> bool)
      ensures this.plan == plan && this.env == env && this.gpio == gpio && trace == []
      ensures fresh(guard) && fresh(lines) && lines.Length == drivers
      ensures Snapshot() == Init(lines[..]) && forall i :: 0 <= i < drivers ==> !lines[i]
    {
      this.plan, this.env, this.gpio := plan, env, gpio;
      guard := new Guard(Standby);
      lines := new bool[drivers](_ => false);
      poisoned, held, threads, writes, moves, trace := false, false, [], [], [], [];
    }

    function Snapshot(): Config
      reads this, guard, lines
    {
      Config(guard.state, lines[..], poisoned, held, threads, writes, moves)
    }

    /** Everything since the schedule was `t0` and the system was `c0` is a run of the protocol. */
    ghost predicate Since(c0: Config, t0: seq<Event>)
      reads this, guard, lines
    {
      t0 <= trace && Snapshot() == Run(plan, c0, trace[|t0|..])
    }

    /** With no other thread running, the lock free and working pins, the schedule since `t0`, when the
        system was `c0`, is `me` alone. */
    ghost predicate AloneSince(me: nat, c0: Config, t0: seq<Event>)
      reads this
    {
      t0 <= trace && (Undisturbed() && !c0.held ==> !held && trace[|t0|..] == Solo(me, |trace| - |t0|))
    }

    ghost predicate Undisturbed() {
      forall s :: env(s) == [] && gpio(s)
    }

    /** Nothing has happened yet. */
    lemma Starts(me: nat)
      ensures Since(Snapshot(), trace) && AloneSince(me, Snapshot(), trace)
    {
      assert trace[|trace|..] == [] && Solo(me, 0) == [];
    }

    /** Another thread takes one step. */
    method Interfere(e: Event, ghost c0: Config, ghost t0: seq<Event>)
      requires Since(c0, t0)
      modifies this, guard, lines
      ensures Since(c0, t0)
      ensures trace == old(trace) + [e] && Snapshot() == Next(plan, old(Snapshot()), e)
    {
      var c := Next(plan, Snapshot(), e);
      LinesKept(plan, Snapshot(), e);
      Extend(plan, c0, t0, trace, e);
      guard.state := c.guard;
      forall i | 0 <= i < lines.Length {
        lines[i] := c.lines[i];
      }
      assert lines[..] == c.lines;
      poisoned, held, threads, writes, moves := c.poisoned, c.held, c.threads, c.writes, c.moves;
      trace := trace + [e];
    }

    /** A point where thread `me` can be preempted: any steps of other threads happen here. */
    method Yield(me: nat, ghost c0: Config, ghost t0: seq<Event>)
      requires Since(c0, t0) && me < |threads| && AloneSince(me, c0, t0)
      modifies this, guard, lines
      ensures Since(c0, t0) && me < |threads| && threads[me] == old(threads[me]) && AloneSince(me, c0, t0)
    {
      var batch := env(trace);
      for i := 0 to |batch|
        invariant Since(c0, t0) && me < |threads| && threads[me] == old(threads[me])
        invariant |batch| == 0 ==> trace == old(trace) && held == old(held)
        invariant AloneSince(me, c0, t0)
      {
        if !(batch[i].Advance? && batch[i].tid == me) {
          StepThreads(plan, Snapshot(), batch[i]);
          Interfere(batch[i], c0, t0);
        }
      }
    }

    /** Thread `me` waits until the status listener lets go of the driver lock. */
    method AwaitLock(me: nat, ghost c0: Config, ghost t0: seq<Event>)
      requires Since(c0, t0) && me < |threads| && AloneSince(me, c0, t0)
      modifies this, guard, lines
      ensures Since(c0, t0) && me < |threads| && threads[me] == old(threads[me]) && AloneSince(me, c0, t0)
      ensures !held
    {
      if held {
        Yield(me, c0, t0);
        if held {
          StepThreads(plan, Snapshot(), Release);
          Interfere(Release, c0, t0);
        }
      }
    }

    /** Thread `me` attempts a guard move, atomically, and goes on at `next` or returns. The guard
        decides; the phases and the history are then brought up to date with it. */
    method AttemptMove(me: nat, s: State, next: Phase) returns (r: MoveResult)
      requires me < |threads|
      modifies this, guard
      ensures r.Moved? <==> MayMove(old(guard.state), s)
      ensures trace == old(trace) + [Advance(me, true)]
      ensures Snapshot() == TryMove(old(Snapshot()), me, s, next)
      ensures threads[me] == if r.Moved? then next else Done(Rejected(r.error))
      ensures held == old(held)
    {
      hide MayMove;
      ghost var before := Snapshot();
      var after := TryMove(Snapshot(), me, s, next);
      r := guard.MoveTo(s);
      threads, moves := after.threads, after.moves;
      trace := trace + [Advance(me, true)];
      assert lines[..] == before.lines;
    }

    /** The same as a step of the protocol. */
    method Attempt(me: nat, s: State, next: Phase, ghost c0: Config, ghost t0: seq<Event>) returns (r: MoveResult)
      requires Since(c0, t0) && me < |threads| && AloneSince(me, c0, t0)
      requires Next(plan, Snapshot(), Advance(me, true)) == TryMove(Snapshot(), me, s, next)
      modifies this, guard
      ensures r.Moved? <==> MayMove(old(guard.state), s)
      ensures trace == old(trace) + [Advance(me, true)]
      ensures Snapshot() == Next(plan, old(Snapshot()), Advance(me, true))
      ensures Since(c0, t0) && AloneSince(me, c0, t0) && |threads| == |old(threads)|
      ensures threads[me] == if r.Moved? then next else Done(Rejected(r.error))
    {
      hide Next, Run, Solo, MayMove, Undisturbed;
      Extend(plan, c0, t0, trace, Advance(me, true));
      ExtendSolo(me, t0, trace);
      r := AttemptMove(me, s, next);
    }

    /** One action of thread `me`. A pin write has the lock to itself. */
    method WriteOrSleep(me: nat, ign: bool, rest: seq<Action>) returns (r: Outcome)
      requires me < |threads| && rest != [] && threads[me] == ActingPhase(ign, rest)
      requires rest[0].Actuate? ==> !held
      modifies this, lines
      ensures r in {Finished, Faulted, Panicked}
      ensures r == Panicked <==> rest[0].Actuate? && !old(poisoned) && rest[0].driverId >= lines.Length
      ensures r == Faulted <==>
                rest[0].Actuate? && (old(poisoned) || (rest[0].driverId < lines.Length && !gpio(old(trace))))
      ensures trace == old(trace) + [Advance(me, gpio(old(trace)))] && held == old(held)
      ensures Snapshot() == Next(plan, old(Snapshot()), Advance(me, gpio(old(trace))))
      ensures threads == old(threads)[me := if r.Finished? then ActingPhase(ign, rest[1..]) else Done(r)]
    {
      hide TryMove;
      ghost var before := Snapshot();
      var works := gpio(trace);
      r := Finished;
      match rest[0] {
        case Sleep(_) =>
        case Actuate(d, v) =>
          if poisoned {
            r := Faulted;
          } else if d >= lines.Length {
            poisoned := true;
            r := Panicked;
          } else if !works {
            r := Faulted;
          } else {
            lines[d] := v;
            writes := writes + [Write(ActingAuthor(ign, me), d, v)];
            assert lines[..] == before.lines[d := v];
          }
      }
      threads := threads[me := if r.Finished? then ActingPhase(ign, rest[1..]) else Done(r)];
      trace := trace + [Advance(me, works)];
      assert Snapshot() == Act(before, me, rest[0], works, ActingAuthor(ign, me), ActingPhase(ign, rest[1..]));
    }

    /** The same as a step of the protocol. */
    method PerformAction(me: nat, ign: bool, rest: seq<Action>, ghost c0: Config, ghost t0: seq<Event>)
      returns (r: Outcome)
      requires Since(c0, t0) && me < |threads| && AloneSince(me, c0, t0)
      requires rest != [] && threads[me] == ActingPhase(ign, rest)
      requires rest[0].Actuate? ==> !held
      modifies this, lines
      ensures r in {Finished, Faulted, Panicked}
      ensures r == Panicked <==> rest[0].Actuate? && !old(poisoned) && rest[0].driverId >= lines.Length
      ensures r == Faulted <==>
                rest[0].Actuate? && (old(poisoned) || (rest[0].driverId < lines.Length && !gpio(old(trace))))
      ensures trace == old(trace) + [Advance(me, gpio(old(trace)))]
      ensures Snapshot() == Next(plan, old(Snapshot()), Advance(me, gpio(old(trace))))
      ensures Since(c0, t0) && AloneSince(me, c0, t0) && |threads| == |old(threads)|
      ensures threads[me] == if r.Finished? then ActingPhase(ign, rest[1..]) else Done(r)
    {
      hide Next, Run, Solo;
      Extend(plan, c0, t0, trace, Advance(me, gpio(trace)));
      ExtendSolo(me, t0, trace);
      r := WriteOrSleep(me, ign, rest);
    }

    /** The loop over a sequence. Other threads may run before every action. */
    method PerformActions(me: nat, ign: bool, actions: seq<Action>, ghost c0: Config, ghost t0: seq<Event>)
      returns (r: Outcome)
      requires Since(c0, t0) && me < |threads| && AloneSince(me, c0, t0)
      requires threads[me] == ActingPhase(ign, actions)
      modifies this, guard, lines
      ensures Since(c0, t0) && me < |threads| && AloneSince(me, c0, t0)
      ensures threads[me] == if r.Finished? then ActingPhase(ign, []) else Done(r)
    {
      r := Finished;
      assert actions[0..] == actions;
      for i := 0 to |actions|
        invariant Since(c0, t0) && me < |threads| && AloneSince(me, c0, t0)
        invariant r == Finished && threads[me] == ActingPhase(ign, actions[i..])
      {
        Yield(me, c0, t0);
        if actions[i].Actuate? {
          AwaitLock(me, c0, t0);
        }
        assert actions[i..][1..] == actions[i + 1..];
        r := PerformAction(me, ign, actions[i..], c0, t0);
        if !r.Finished? {
          return;
        }
      }
      assert actions[|actions|..] == [];
    }

    /** `ignition`, run as thread `me`: with any interference, its whole effect is a run of the
        protocol in which `me` returned with the result of the call. Undisturbed from Standby it
        leaves the drivers where the ignition sequence puts them and the guard in Standby again. */
    method Ignition(me: nat) returns (r: Outcome)
      requires me < |threads| && threads[me] == IgnStart
      modifies this, guard, lines
      ensures Since(old(Snapshot()), old(trace))
      ensures me < |threads| && threads[me] == Done(r)
      ensures Undisturbed() && old(guard.state) == Standby && !old(poisoned) && !old(held) && InRange(plan.ignition, lines.Length) ==>
                r == Finished && guard.state == Standby && lines[..] == ApplyActions(old(lines[..]), plan.ignition)
    {
      ghost var c0, t0 := Snapshot(), trace;
      r := IgnitionSteps(me, c0, t0);
      if Undisturbed() && c0.guard == Standby && !c0.poisoned && !c0.held && InRange(plan.ignition, |c0.lines|) {
        IgnitionAlone(plan, c0, me, |trace| - |t0|);
      }
    }

    /** The statements of `ignition`, in order. */
    method IgnitionSteps(me: nat, ghost c0: Config, ghost t0: seq<Event>) returns (r: Outcome)
      requires me < |threads| && threads[me] == IgnStart
      requires Snapshot() == c0 && trace == t0
      modifies this, guard, lines
      ensures Since(c0, t0) && AloneSince(me, c0, t0)
      ensures me < |threads| && threads[me] == Done(r)
    {
      hide Since, AloneSince;
      Starts(me);
      Yield(me, c0, t0);
      var m := Attempt(me, PreIgnite, IgnPre, c0, t0);
      if m.Refused? {
        return Rejected(m.error);
      }
      Yield(me, c0, t0);  // sleeping for the pre-ignition time

      m := Attempt(me, Ignite, IgnAct(plan.ignition), c0, t0);
      if m.Refused? {
        return Rejected(m.error);
      }
      r := PerformActions(me, true, plan.ignition, c0, t0);
      if !r.Finished? {
        return;
      }
      Yield(me, c0, t0);

      m := Attempt(me, PostIgnite, IgnPost, c0, t0);
      if m.Refused? {
        return Rejected(m.error);
      }
      Yield(me, c0, t0);  // sleeping for the post-ignition time

      m := Attempt(me, Standby, Done(Finished), c0, t0);
      if m.Refused? {
        return Rejected(m.error);
      }
      return Finished;
    }

    /** `emergency_stop`, run as thread `me`: a run of the protocol under any interference; undisturbed
        from any state but Quit it applies the shutoff sequence and returns the guard to Standby. */
    method EmergencyStop(me: nat) returns (r: Outcome)
      requires me < |threads| && threads[me] == EsStart
      modifies this, guard, lines
      ensures Since(old(Snapshot()), old(trace))
      ensures me < |threads| && threads[me] == Done(r)
      ensures Undisturbed() && old(guard.state) != Quit && !old(poisoned) && !old(held) && InRange(plan.estop, lines.Length) ==>
                r == Finished && guard.state == Standby && lines[..] == ApplyActions(old(lines[..]), plan.estop)
    {
      ghost var c0, t0 := Snapshot(), trace;
      r := EmergencyStopSteps(me, c0, t0);
      if Undisturbed() && c0.guard != Quit && !c0.poisoned && !c0.held && InRange(plan.estop, |c0.lines|) {
        EStopAlone(plan, c0, me, |trace| - |t0|);
      }
    }

    /** The statements of `emergency_stop`, in order. */
    method EmergencyStopSteps(me: nat, ghost c0: Config, ghost t0: seq<Event>) returns (r: Outcome)
      requires me < |threads| && threads[me] == EsStart
      requires Snapshot() == c0 && trace == t0
      modifies this, guard, lines
      ensures Since(c0, t0) && AloneSince(me, c0, t0)
      ensures me < |threads| && threads[me] == Done(r)
    {
      hide Since, AloneSince;
      Starts(me);
      Yield(me, c0, t0);
      var m := Attempt(me, EStopping, EsAct(plan.estop), c0, t0);
      if m.Refused? {
        return Rejected(m.error);
      }
      r := PerformActions(me, false, plan.estop, c0, t0);
      if !r.Finished? {
        return;
      }
      Yield(me, c0, t0);
      m := Attempt(me, Standby, Done(Finished), c0, t0);
      if m.Refused? {
        return Rejected(m.error);
      }
      return Finished;
    }

    /** The client thread waits until the status listener lets go of the driver lock. */
    method AwaitLockInline()
      modifies this, guard, lines
      ensures Since(old(Snapshot()), old(trace)) && !held
      ensures !old(held) ==> Snapshot() == old(Snapshot()) && trace == old(trace)
    {
      ghost var c0, t0 := Snapshot(), trace;
      assert trace[|t0|..] == [];
      if held {
        var batch := env(trace);
        for i := 0 to |batch|
          invariant Since(c0, t0)
        {
          Interfere(batch[i], c0, t0);
        }
        if held {
          Interfere(Release, c0, t0);
        }
      }
    }

    /** A manual actuation under the lock, its id past the bounds check: a known driver is driven to the
        level asked for and no other; the first id past the table, which the check lets through, panics
        and poisons the lock. */
    method ActuateInline(driverId: nat, value: bool) returns (r: CommandResult)
      requires !held && driverId <= lines.Length
      modifies this, lines
      ensures r == Failed(Panicked) <==> driverId == lines.Length && !old(poisoned)
      ensures r == Completed <==> driverId < lines.Length && !old(poisoned) && gpio(old(trace))
      ensures r == Failed(Faulted) || r == Failed(Panicked) || r == Completed
      ensures r == Completed ==> lines[..] == old(lines[..])[driverId := value]
      ensures r != Completed ==> lines[..] == old(lines[..])
      ensures poisoned == (old(poisoned) || r == Failed(Panicked))
      ensures threads == old(threads) && trace == old(trace) + [Manual(driverId, value, gpio(old(trace)))]
      ensures Snapshot() == Next(plan, old(Snapshot()), Manual(driverId, value, gpio(old(trace))))
    {
      hide AdvanceThread;
      ghost var before := Snapshot();
      var works := gpio(trace);
      if poisoned {
        r := Failed(Faulted);
      } else if driverId == lines.Length {
        poisoned := true;
        r := Failed(Panicked);
      } else if !works {
        r := Failed(Faulted);
      } else {
        lines[driverId] := value;
        writes := writes + [Write(Operator, driverId, value)];
        r := Completed;
        assert lines[..] == before.lines[driverId := value];
      }
      trace := trace + [Manual(driverId, value, works)];
      assert Snapshot() == ManualActuate(before, driverId, value, works);
    }

    /** A thread is spawned for an ignition or an emergency stop and runs it: the ignition sequence for the
        one command, the shutoff sequence for the other. */
    method SpawnAndRun(cmd: Command) returns (r: Outcome)
      requires !cmd.ActuateDriver?
      modifies this, guard, lines
      ensures Since(old(Snapshot()), old(trace))
      ensures |old(threads)| < |threads| && threads[|old(threads)|] == Done(r)
      ensures |old(trace)| < |trace|
              && trace[|old(trace)|] == (if cmd == Command.Ignition then SpawnIgnition else SpawnEStop)
      ensures cmd == Command.Ignition && Undisturbed() && old(guard.state) == Standby && !old(poisoned) && !old(held)
              && InRange(plan.ignition, lines.Length) ==>
                r == Finished && guard.state == Standby && lines[..] == ApplyActions(old(lines[..]), plan.ignition)
      ensures cmd == Command.EmergencyStop && Undisturbed() && old(guard.state) != Quit && !old(poisoned) && !old(held)
              && InRange(plan.estop, lines.Length) ==>
                r == Finished && guard.state == Standby && lines[..] == ApplyActions(old(lines[..]), plan.estop)
    {
      ghost var c0, t0 := Snapshot(), trace;
      var me := |threads|;
      var e := if cmd.Ignition? then SpawnIgnition else SpawnEStop;
      assert trace[|t0|..] == [];
      Interfere(e, c0, t0);
      ghost var c1, t1 := Snapshot(), trace;
      if cmd.Ignition? {
        r := Ignition(me);
      } else {
        r := EmergencyStop(me);
      }
      assert trace[|t0|..] == t1[|t0|..] + trace[|t1|..];
      RunAppend(plan, c0, t1[|t0|..], trace[|t1|..]);
    }

    /** The `Actuate` case of `handle_command`: an id past the table by more than one is refused before
        anything else, any other waits for the lock. */
    method ActuateChecked(driverId: nat, value: bool) returns (r: CommandResult)
      modifies this, guard, lines
      ensures Since(old(Snapshot()), old(trace))
      ensures r == DriverOutOfBounds <==> driverId > lines.Length
      ensures r == DriverOutOfBounds ==> Snapshot() == old(Snapshot()) && trace == old(trace)
      ensures !old(held) ==>
                && threads == old(threads) && guard.state == old(guard.state)
                && (r == Completed <==> driverId < lines.Length && !old(poisoned) && gpio(old(trace)))
                && lines[..] == if r == Completed then old(lines[..])[driverId := value] else old(lines[..])
    {
      hide Next, Run;
      if driverId > lines.Length {
        Starts(0);
        return DriverOutOfBounds;
      }
      ghost var c0, t0 := Snapshot(), trace;
      AwaitLockInline();
      Extend(plan, c0, t0, trace, Manual(driverId, value, gpio(trace)));
      r := ActuateInline(driverId, value);
    }

    /** `handle_command` without its logging: a manual actuation runs here and now, the two procedures in
        a thread of their own. */
    method HandleCommand(cmd: Command) returns (r: CommandResult)
      modifies this, guard, lines
      ensures Since(old(Snapshot()), old(trace))
      ensures r == DriverOutOfBounds <==> cmd.ActuateDriver? && cmd.driverId > lines.Length
      ensures r == DriverOutOfBounds ==> Snapshot() == old(Snapshot()) && trace == old(trace)
      ensures cmd.ActuateDriver? && !old(held) ==>
                && threads == old(threads) && guard.state == old(guard.state)
                && (r == Completed <==> cmd.driverId < lines.Length && !old(poisoned) && gpio(old(trace)))
                && lines[..] == if r == Completed then old(lines[..])[cmd.driverId := cmd.value] else old(lines[..])
      ensures !cmd.ActuateDriver? ==>
                |old(threads)| < |threads|
                && threads[|old(threads)|] == Done(if r.Failed? then r.outcome else Finished)
                && |old(trace)| < |trace|
                && trace[|old(trace)|] == (if cmd == Command.Ignition then SpawnIgnition else SpawnEStop)
      ensures cmd == Command.Ignition && Undisturbed() && old(guard.state) == Standby && !old(poisoned) && !old(held)
              && InRange(plan.ignition, lines.Length) ==>
                r == Completed && guard.state == Standby && lines[..] == ApplyActions(old(lines[..]), plan.ignition)
      ensures cmd == Command.EmergencyStop && Undisturbed() && old(guard.state) != Quit && !old(poisoned) && !old(held)
              && InRange(plan.estop, lines.Length) ==>
                r == Completed && guard.state == Standby && lines[..] == ApplyActions(old(lines[..]), plan.estop)
    {
      hide Next, Run, Since, Undisturbed, ApplyActions, InRange;
      match cmd {
        case ActuateDriver(d, v) =>
          r := ActuateChecked(d, v);
        case _ =>
          var o := SpawnAndRun(cmd);
          r := if o.Finished? then Completed else Failed(o);
      }
    }
  }

  lemma LinesKept(p: Plan, c: Config, e: Event)
    ensures |Next(p, c, e).lines| == |c.lines|
  {
  }

  /** One more event since `t0`. */
  lemma Extend(p: Plan, c0: Config, t0: seq<Event>, trace: seq<Event>, e: Event)
    requires t0 <= trace
    ensures t0 <= trace + [e]
    ensures Run(p, c0, (trace + [e])[|t0|..]) == Next(p, Run(p, c0, trace[|t0|..]), e)
  {
    assert (trace + [e])[|t0|..] == trace[|t0|..] + [e];
    RunSnoc(p, c0, trace[|t0|..], e);
  }

  lemma ExtendSolo(me: nat, t0: seq<Event>, trace: seq<Event>)
    requires t0 <= trace
    ensures trace[|t0|..] == Solo(me, |trace| - |t0|) ==>
              (trace + [Advance(me, true)])[|t0|..] == Solo(me, |trace| + 1 - |t0|)
  {
    assert (trace + [Advance(me, true)])[|t0|..] == trace[|t0|..] + [Advance(me, true)];
    SoloSplit(me, |trace| - |t0|, 1);
  }
}
