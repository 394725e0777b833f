/** The one lock every driver write goes through. The status listener keeps it while it waits for the
    dashboard, and a panic inside it poisons it for good; either way the drivers stay as they are. */
module DriverLock {
  import opened StateGuard
  import opened Protocol

  predicate NoActuation(acts: seq<Action>) {
    forall i :: 0 <= i < |acts| ==> acts[i].Sleep?
  }

  /** The actions a thread has left to perform. */
  function Remaining(ph: Phase): seq<Action> {
    match ph
    case IgnAct(rest) => rest
    case EsAct(rest) => rest
    case _ => []
  }

  /** The next thing the thread does is to write a driver. */
  predicate NeedsLock(ph: Phase) {
    Remaining(ph) != [] && Remaining(ph)[0].Actuate?
  }

  /** A step leaves a thread with what it had left, one action less, a whole sequence, or nothing. */
  lemma RemainingStep(p: Plan, c: Config, t: nat, gpio: bool)
    requires t < |c.threads|
    ensures var before, after := Remaining(c.threads[t]), Remaining(AdvanceThread(p, c, t, gpio).threads[t]);
      after in {before, [], p.ignition, p.estop} || (before != [] && after == before[1..])
  {
    hide MayMove;
    if Remaining(c.threads[t]) != [] {
      hide TryMove;
    } else {
      hide Act;
    }
  }

  predicate Blocked(c: Config, t: nat)
    requires t < |c.threads|
  {
    c.held && NeedsLock(c.threads[t])
  }

  /** No thread can take a step: each has ended or waits for the lock. */
  predicate Stalled(c: Config) {
    forall t :: 0 <= t < |c.threads| && Live(c.threads[t]) ==> Blocked(c, t)
  }

  /** The status listener does not let go of the lock. */
  predicate NoRelease(es: seq<Event>) {
    forall i :: 0 <= i < |es| ==> !es[i].Release?
  }

  lemma {:induction false} FirstActuation(acts: seq<Action>) returns (i: nat)
    requires !NoActuation(acts)
    ensures i < |acts| && acts[i].Actuate? && NoActuation(acts[..i])
    decreases |acts|
  {
    var last := |acts| - 1;
    if NoActuation(acts[..last]) {
      assert forall j :: 0 <= j < last ==> acts[..last][j] == acts[j];
      i := last;
    } else {
      i := FirstActuation(acts[..last]);
      assert acts[..last][..i] == acts[..i];
    }
  }

  /** A live thread is kept from taking its step exactly when it needs the lock and the listener has it. */
  lemma BlockedExactly(p: Plan, c: Config, t: nat, gpio: bool)
    requires t < |c.threads| && Live(c.threads[t])
    ensures Next(p, c, Advance(t, gpio)) == c <==> Blocked(c, t)
  {
    var d := Next(p, c, Advance(t, gpio));
    if !Blocked(c, t) {
      assert d.threads[t] != c.threads[t] by {
        if Remaining(c.threads[t]) != [] {
          assert |Remaining(c.threads[t])[1..]| < |Remaining(c.threads[t])|;
        }
      }
    }
  }

  /** While the listener has the lock, and for as long as it keeps it, no driver moves whatever else
      happens, and every thread that needs the lock stays where it is. */
  lemma {:induction false} HeldFreezes(p: Plan, c: Config, es: seq<Event>)
    requires c.held && NoRelease(es)
    ensures var d := Run(p, c, es);
      && d.held && d.lines == c.lines && d.writes == c.writes && d.poisoned == c.poisoned
      && |c.threads| <= |d.threads|
      && forall t :: 0 <= t < |c.threads| && NeedsLock(c.threads[t]) ==> d.threads[t] == c.threads[t]
    decreases |es|
  {
    hide AdvanceThread;
    if es != [] {
      var before, e := es[..|es| - 1], es[|es| - 1];
      assert NoRelease(before) && !e.Release?;
      HeldFreezes(p, c, before);
      HeldStep(p, Run(p, c, before), e);
    }
  }

  lemma HeldStep(p: Plan, c: Config, e: Event)
    requires c.held && !e.Release?
    ensures var d := Next(p, c, e);
      && d.held && d.lines == c.lines && d.writes == c.writes && d.poisoned == c.poisoned
      && |c.threads| <= |d.threads|
      && forall t :: 0 <= t < |c.threads| && NeedsLock(c.threads[t]) ==> d.threads[t] == c.threads[t]
  {
  }

  /** Poison is for good: from then on no driver moves, whatever happens. */
  lemma {:induction false} PoisonFreezes(p: Plan, c: Config, es: seq<Event>)
    requires c.poisoned
    ensures var d := Run(p, c, es); d.poisoned && d.lines == c.lines && d.writes == c.writes
    decreases |es|
  {
    hide AdvanceThread;
    if es != [] {
      PoisonFreezes(p, c, es[..|es| - 1]);
      PoisonStep(p, Run(p, c, es[..|es| - 1]), es[|es| - 1]);
    }
  }

  lemma PoisonStep(p: Plan, c: Config, e: Event)
    requires c.poisoned
    ensures var d := Next(p, c, e); d.poisoned && d.lines == c.lines && d.writes == c.writes
  {
  }

  /** The listener never holds a poisoned lock: asking for it fails. */
  lemma {:induction false} NeverBoth(p: Plan, lines: seq<bool>, es: seq<Event>)
    ensures var c := Run(p, Init(lines), es); !(c.poisoned && c.held)
    decreases |es|
  {
    hide AdvanceThread;
    if es != [] {
      NeverBoth(p, lines, es[..|es| - 1]);
      NeverBothStep(p, Run(p, Init(lines), es[..|es| - 1]), es[|es| - 1]);
    }
  }

  lemma NeverBothStep(p: Plan, c: Config, e: Event)
    requires !(c.poisoned && c.held)
    ensures var d := Next(p, c, e); !(d.poisoned && d.held)
  {
  }

  // ---------------------------------------------------------------------------------------------
  // Where the driver levels come from
  // ---------------------------------------------------------------------------------------------

  /** The levels after the recorded writes, one by one. */
  function Replay(lines: seq<bool>, writes: seq<Write>): (r: seq<bool>)
    ensures |r| == |lines|
  {
    if writes == [] then lines
    else
      var before, w := Replay(lines, writes[..|writes| - 1]), writes[|writes| - 1];
      if w.driver < |before| then before[w.driver := w.value] else before
  }

  /** A write needs a working pin and the lock, free and sound; it concerns an existing driver; and without
      one no level changes. */
  lemma WriteStep(p: Plan, c: Config, e: Event)
    ensures var d := Next(p, c, e);
      if d.writes == c.writes then d.lines == c.lines
      else
        && (e.Advance? || e.Manual?) && e.gpio && !c.held && !c.poisoned
        && |d.writes| == |c.writes| + 1 && d.writes[..|c.writes|] == c.writes
        && d.writes[|c.writes|].driver < |c.lines|
        && d.lines == c.lines[d.writes[|c.writes|].driver := d.writes[|c.writes|].value]
  {
    hide TryMove;
    if e.Advance? && e.tid < |c.threads| {
      AdvanceWrites(p, c, e.tid, e.gpio);
    }
  }

  lemma AdvanceWrites(p: Plan, c: Config, t: nat, gpio: bool)
    requires t < |c.threads|
    ensures var d := AdvanceThread(p, c, t, gpio);
      if d.writes == c.writes then d.lines == c.lines
      else
        && gpio && !c.held && !c.poisoned
        && |d.writes| == |c.writes| + 1 && d.writes[..|c.writes|] == c.writes
        && d.writes[|c.writes|].driver < |c.lines|
        && d.lines == c.lines[d.writes[|c.writes|].driver := d.writes[|c.writes|].value]
  {
    if Remaining(c.threads[t]) != [] {
      hide TryMove;
    } else {
      hide Act, MayMove;
    }
  }

  /** In every run the driver levels are exactly what the recorded writes make of the initial ones. */
  lemma {:induction false} LevelsAreWritten(p: Plan, lines: seq<bool>, es: seq<Event>)
    ensures var c := Run(p, Init(lines), es); c.lines == Replay(lines, c.writes)
    decreases |es|
  {
    hide AdvanceThread, Next;
    if es != [] {
      var c := Run(p, Init(lines), es[..|es| - 1]);
      LevelsAreWritten(p, lines, es[..|es| - 1]);
      WriteStep(p, c, es[|es| - 1]);
    }
  }

  /** A shutdown request is granted in Standby only. */
  lemma QuitExactly(p: Plan, c: Config)
    ensures Next(p, c, RequestQuit).guard == Quit <==> c.guard == Standby || c.guard == Quit
  {
  }

  /** The thread still has an actuation ahead of it, or has ended short of its last step. */
  predicate CannotFinish(p: Plan, ph: Phase) {
    match ph
    case EsStart => !NoActuation(p.estop)
    case EsAct(rest) => !NoActuation(rest)
    case Done(o) => o != Finished
    case _ => false
  }

  /** Once the lock is poisoned no emergency stop with anything to do is ever carried out. */
  lemma {:induction false} NoStopAfterPoison(p: Plan, c: Config, t: nat, es: seq<Event>)
    requires c.poisoned && t < |c.threads| && CannotFinish(p, c.threads[t])
    ensures var d := Run(p, c, es); t < |d.threads| && CannotFinish(p, d.threads[t]) && d.threads[t] != Done(Finished)
    decreases |es|
  {
    hide AdvanceThread;
    if es != [] {
      var before, e := es[..|es| - 1], es[|es| - 1];
      NoStopAfterPoison(p, c, t, before);
      PoisonFreezes(p, c, before);
      StepThreads(p, Run(p, c, before), e);
      if e.Advance? && e.tid == t {
        CannotFinishStep(p, Run(p, c, before), t, e.gpio);
      }
    }
  }

  lemma CannotFinishStep(p: Plan, c: Config, t: nat, gpio: bool)
    requires c.poisoned && t < |c.threads| && CannotFinish(p, c.threads[t])
    ensures CannotFinish(p, AdvanceThread(p, c, t, gpio).threads[t])
  {
    var ph := c.threads[t];
    if ph.EsAct? && ph.rest[0].Sleep? {
      var i :| 0 <= i < |ph.rest| && !ph.rest[i].Sleep?;
      assert ph.rest[1..][i - 1] == ph.rest[i];
    }
  }
}
