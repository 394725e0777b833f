/** What an emergency stop does to an ignition that is already under way. The interface document
    says it halts it; the code never looks at the guard between actions. Here is what the code does
    guarantee, and exactly when the documented behaviour holds. */
module Cancel {
  import opened StateGuard
  import opened Protocol
  import opened Solos
  import opened DriverLock
  import opened Liveness
  import opened Occupancy

  predicate NotBy(writes: seq<Write>, from: nat, t: nat) {
    forall i :: from <= i < |writes| ==> writes[i].author != Author.Ignition(t)
  }

  /** The guard moves accepted after the first `from` ones contain no ignition. */
  predicate NoIgnitionSince(moves: seq<Move>, from: nat) {
    forall i :: from <= i < |moves| ==> moves[i].to != PreIgnite
  }

  /** The thread cannot write a driver any more unless a new ignition lets it in. */
  predicate Harmless(ph: Phase) {
    ph.IgnAct? ==> NoActuation(ph.rest)
  }

  lemma {:induction false} RunExtends(p: Plan, c: Config, es: seq<Event>)
    ensures var d := Run(p, c, es); c.moves <= d.moves && c.writes <= d.writes && |c.threads| <= |d.threads|
    decreases |es|
  {
    hide AdvanceThread;
    if es != [] {
      RunExtends(p, c, es[..|es| - 1]);
      StepExtends(p, Run(p, c, es[..|es| - 1]), es[|es| - 1]);
    }
  }

  lemma StepExtends(p: Plan, c: Config, e: Event)
    ensures var d := Next(p, c, e); c.moves <= d.moves && c.writes <= d.writes && |c.threads| <= |d.threads|
  {
    hide AdvanceThread;
    StepMoves(p, c, e);
    StepWrites(p, c, e);
    StepThreads(p, c, e);
  }

  /** Nothing but an accepted ignition brings the guard back to PreIgnite, so a thread that is not
      already acting stays out, and one without actuations left makes no write. */
  lemma {:induction false} HarmlessStays(p: Plan, c: Config, t: nat, es: seq<Event>)
    requires t < |c.threads| && Harmless(c.threads[t]) && c.guard != PreIgnite
    requires NoIgnitionSince(Run(p, c, es).moves, |c.moves|)
    ensures var d := Run(p, c, es);
      && c.moves <= d.moves && c.writes <= d.writes
      && t < |d.threads| && Harmless(d.threads[t]) && d.guard != PreIgnite
      && NotBy(d.writes, |c.writes|, t)
    decreases |es|
  {
    hide AdvanceThread;
    if es != [] {
      var b, e := Run(p, c, es[..|es| - 1]), es[|es| - 1];
      var d := Next(p, b, e);
      StepMoves(p, b, e);
      RunExtends(p, c, es[..|es| - 1]);
      StepExtends(p, b, e);
      assert NoIgnitionSince(b.moves, |c.moves|) by {
        forall i | |c.moves| <= i < |b.moves| ensures b.moves[i].to != PreIgnite { assert b.moves[i] == d.moves[i]; }
      }
      HarmlessStays(p, c, t, es[..|es| - 1]);
      if d.moves != b.moves {
        assert d.moves[|b.moves|].to == d.guard;
      }
      HarmlessStep(p, b, t, e);
      assert NotBy(d.writes, |c.writes|, t) by {
        forall i | |c.writes| <= i < |d.writes| ensures d.writes[i].author != Author.Ignition(t) {
          if i < |b.writes| { assert d.writes[i] == b.writes[i]; }
        }
      }
    }
  }

  lemma HarmlessStep(p: Plan, c: Config, t: nat, e: Event)
    requires t < |c.threads| && Harmless(c.threads[t]) && c.guard != PreIgnite
    ensures var d := Next(p, c, e);
      && t < |d.threads| && Harmless(d.threads[t])
      && NotBy(d.writes, |c.writes|, t)
  {
    hide AdvanceThread;
    StepWrites(p, c, e);
    StepThreads(p, c, e);
    if e.Advance? && e.tid == t {
      HarmlessAdvance(p, c, t, e.gpio);
    }
  }

  lemma HarmlessAdvance(p: Plan, c: Config, t: nat, gpio: bool)
    requires t < |c.threads| && Harmless(c.threads[t]) && c.guard != PreIgnite
    ensures Harmless(AdvanceThread(p, c, t, gpio).threads[t])
    ensures AdvanceThread(p, c, t, gpio).writes == c.writes || !c.threads[t].IgnAct?
  {
    if Remaining(c.threads[t]) != [] {
      hide TryMove;
    } else {
      hide Act;
    }
    if c.threads[t].IgnAct? && c.threads[t].rest != [] {
      assert c.threads[t].rest[0].Sleep?;
      assert NoActuation(c.threads[t].rest[1..]);
    }
  }

  // ---------------------------------------------------------------------------------------------
  // Exactly which threads an emergency stop halts
  // ---------------------------------------------------------------------------------------------

  /** Some benign continuation without a new ignition has ignition thread `t` write a driver. */
  ghost predicate MayStillWrite(p: Plan, c: Config, t: nat) {
    exists es ::
      && AllBenign(es, |c.lines|)
      && NoIgnitionSince(Run(p, c, es).moves, |c.moves|)
      && !NotBy(Run(p, c, es).writes, |c.writes|, t)
  }

  /** When an emergency stop has just been accepted, an ignition thread can go on to write a driver,
      with no further ignition, if and only if it was acting with an actuation left. A thread that was
      still waiting, cooling down or not started is halted; one that was acting is not. */
  lemma HaltedExactly(p: Plan, c: Config, t: nat)
    requires c.guard == EStopping && t < |c.threads| && Healthy(c, |c.lines|)
    ensures MayStillWrite(p, c, t) <==> !Harmless(c.threads[t])
  {
    hide AdvanceThread;
    if Harmless(c.threads[t]) {
      forall es | NoIgnitionSince(Run(p, c, es).moves, |c.moves|)
        ensures NotBy(Run(p, c, es).writes, |c.writes|, t)
      {
        HarmlessStays(p, c, t, es);
      }
    } else {
      var free := Next(p, c, Release);
      RunSnoc(p, c, [], Release);
      var es := ActsOn(p, free, t, |c.lines|);
      RunAppend(p, c, [] + [Release], es);
      assert MayStillWrite(p, c, t);
    }
  }

  /** An acting ignition thread with an actuation left, alone and with the lock free, writes. */
  lemma ActsOn(p: Plan, c: Config, t: nat, n: nat) returns (es: seq<Event>)
    requires t < |c.threads| && !Harmless(c.threads[t]) && Healthy(c, n) && !c.held
    ensures AllBenign(es, n)
    ensures var d := Run(p, c, es); d.moves == c.moves && !NotBy(d.writes, |c.writes|, t)
  {
    hide AdvanceThread;
    var rest := c.threads[t].rest;
    var i := FirstActuation(rest);
    assert PhaseInRange(c.threads[t], n);
    assert forall j :: 0 <= j < i + 1 ==> rest[..i + 1][j] == rest[j];
    ActsAlone(p, c, t, true, rest, i + 1);
    es := Solo(t, i + 1);
    var d := Run(p, c, es);
    assert rest[..i + 1][i] == rest[i];
    var ws := WritesOf(Author.Ignition(t), rest[..i + 1]);
    assert ws[|ws| - 1] == Write(Author.Ignition(t), rest[i].driverId, rest[i].value);
    assert d.writes[|d.writes| - 1] == ws[|ws| - 1];
  }

  /** The same with later ignitions allowed. */
  ghost predicate MayEverWrite(p: Plan, c: Config, t: nat) {
    exists es :: AllBenign(es, |c.lines|) && !NotBy(Run(p, c, es).writes, |c.writes|, t)
  }

  /** The thread may still perform an actuation of the ignition sequence. */
  predicate HasActuationsAhead(p: Plan, ph: Phase) {
    match ph
    case IgnStart => !NoActuation(p.ignition)
    case IgnPre => !NoActuation(p.ignition)
    case IgnAct(rest) => !NoActuation(rest)
    case _ => false
  }

  /** With later ignitions allowed, and in any state but Quit, a thread can write a driver again if and
      only if it has actuations ahead of it: an accepted stop cancels nothing for good. */
  lemma {:induction false} HaltedForGoodExactly(p: Plan, c: Config, t: nat)
    requires c.guard != Quit && t < |c.threads| && Healthy(c, |c.lines|) && PlanInRange(p, |c.lines|)
    ensures MayEverWrite(p, c, t) <==> HasActuationsAhead(p, c.threads[t])
  {
    hide AdvanceThread;
    if !HasActuationsAhead(p, c.threads[t]) {
      forall es ensures NotBy(Run(p, c, es).writes, |c.writes|, t) {
        NothingAheadStays(p, c, t, es);
      }
    } else {
      var es := LetThrough(p, c, t);
      assert MayEverWrite(p, c, t);
    }
  }

  lemma {:induction false} NothingAheadStays(p: Plan, c: Config, t: nat, es: seq<Event>)
    requires t < |c.threads| && !HasActuationsAhead(p, c.threads[t])
    ensures var d := Run(p, c, es);
      && c.writes <= d.writes && t < |d.threads| && !HasActuationsAhead(p, d.threads[t])
      && NotBy(d.writes, |c.writes|, t)
    decreases |es|
  {
    hide AdvanceThread;
    if es != [] {
      var b, e := Run(p, c, es[..|es| - 1]), es[|es| - 1];
      var d := Next(p, b, e);
      NothingAheadStays(p, c, t, es[..|es| - 1]);
      StepExtends(p, b, e);
      StepThreads(p, b, e);
      StepWrites(p, b, e);
      if e.Advance? && e.tid == t {
        NothingAheadStep(p, b, t, e.gpio);
      }
      forall i | |c.writes| <= i < |d.writes| ensures d.writes[i].author != Author.Ignition(t) {
        if i < |b.writes| { assert d.writes[i] == b.writes[i]; }
      }
    }
  }

  lemma NothingAheadStep(p: Plan, c: Config, t: nat, gpio: bool)
    requires t < |c.threads| && !HasActuationsAhead(p, c.threads[t])
    ensures !HasActuationsAhead(p, AdvanceThread(p, c, t, gpio).threads[t])
  {
    hide MayMove, NoActuation;
    if Remaining(c.threads[t]) != [] {
      hide TryMove;
      NoActuationTail(Remaining(c.threads[t]));
    } else {
      hide Act;
      NoActuationNone();
    }
  }

  lemma NoActuationTail(acts: seq<Action>)
    requires acts != []
    ensures NoActuation(acts) ==> NoActuation(acts[1..]) && acts[0].Sleep?
  {
  }

  lemma NoActuationNone()
    ensures NoActuation([])
  {
  }

  /** A stop that runs to its end, a new ignition if the thread waits for one to open the gate, and then
      the thread alone. */
  lemma LetThrough(p: Plan, c: Config, t: nat) returns (es: seq<Event>)
    requires c.guard != Quit && t < |c.threads| && Healthy(c, |c.lines|) && PlanInRange(p, |c.lines|)
    requires HasActuationsAhead(p, c.threads[t])
    ensures AllBenign(es, |c.lines|) && !NotBy(Run(p, c, es).writes, |c.writes|, t)
  {
    hide AdvanceThread, Run;
    var free := Next(p, c, Release);
    RunSnoc(p, c, [], Release);
    assert Run(p, c, []) == c by { RunNone(p, c); }
    var opening := [] + [Release];
    var b := free;
    if !c.threads[t].IgnAct? {
      var gate := OpenGate(p, free, t);
      RunAppend(p, c, opening, gate);
      opening := opening + gate;
      b := Run(p, free, gate);
    }
    var last := ActsOn(p, b, t, |c.lines|);
    RunAppend(p, c, opening, last);
    es := opening + last;
    var d := Run(p, c, es);
    var i :| |b.writes| <= i < |d.writes| && d.writes[i].author == Author.Ignition(t);
    assert |c.writes| <= i;
  }

  lemma RunNone(p: Plan, c: Config)
    ensures Run(p, c, []) == c
  {
  }

  /** The thread is brought to its actions. */
  lemma OpenGate(p: Plan, c: Config, t: nat) returns (es: seq<Event>)
    requires c.guard != Quit && t < |c.threads| && Healthy(c, |c.lines|) && PlanInRange(p, |c.lines|) && !c.held
    requires c.threads[t].IgnStart? || c.threads[t].IgnPre?
    ensures AllBenign(es, |c.lines|)
    ensures var d := Run(p, c, es);
      && Healthy(d, |c.lines|) && !d.held && |c.writes| <= |d.writes|
      && t < |d.threads| && d.threads[t] == IgnAct(p.ignition)
  {
    hide AdvanceThread, Run;
    var n := |c.lines|;
    var stop := StopEvents(p, |c.threads|);
    StopRun(p, c);
    var b := Run(p, c, stop);
    StillHealthy(p, c, stop, n);
    assert b.threads[t] == c.threads[t];
    if c.threads[t].IgnStart? {
      IgnitionOpens(p, b, t);
      StillHealthy(p, b, Solo(t, 2), n);
      RunAppend(p, c, stop, Solo(t, 2));
      es := stop + Solo(t, 2);
    } else {
      var wait := StartEvents(Waiting, |b.threads|);
      WaitRun(p, b);
      StillHealthy(p, b, wait, n);
      var w := Run(p, b, wait);
      RunAppend(p, c, stop, wait);
      GateStep(p, w, t);
      RunSnoc(p, c, stop + wait, Advance(t, true));
      HealthyStep(p, w, Advance(t, true), n);
      es := stop + wait + [Advance(t, true)];
    }
  }

  lemma GateStep(p: Plan, c: Config, t: nat)
    requires t < |c.threads| && c.threads[t].IgnPre? && c.guard == PreIgnite
    ensures Next(p, c, Advance(t, true))
         == c.(guard := Ignite, threads := c.threads[t := IgnAct(p.ignition)], moves := c.moves + [Move(PreIgnite, Ignite)])
  {
  }

  lemma {:induction false} StillHealthy(p: Plan, c: Config, es: seq<Event>, n: nat)
    requires PlanInRange(p, n) && Healthy(c, n) && AllBenign(es, n)
    ensures Healthy(Run(p, c, es), n)
    decreases |es|
  {
    hide AdvanceThread, Healthy;
    if es != [] {
      var before, e := es[..|es| - 1], es[|es| - 1];
      assert Benign(e, n);
      StillHealthy(p, c, before, n);
      HealthyStep(p, Run(p, c, before), e, n);
    }
  }

  // ---------------------------------------------------------------------------------------------
  // Cancelling a pre-ignition
  // ---------------------------------------------------------------------------------------------

  /** A thread that has not reached its actions has written nothing. */
  predicate NothingYet(c: Config) {
    && (forall i :: 0 <= i < |c.writes| && c.writes[i].author.Ignition? ==> c.writes[i].author.tid < |c.threads|)
    && (forall t :: 0 <= t < |c.threads| && (c.threads[t].IgnStart? || c.threads[t].IgnPre?) ==> NotBy(c.writes, 0, t))
  }

  /** Only `Start` and `Pre` threads come from spawns and their own first move. */
  lemma StepEarly(p: Plan, c: Config, e: Event, t: nat)
    requires t < |Next(p, c, e).threads| && (Next(p, c, e).threads[t].IgnStart? || Next(p, c, e).threads[t].IgnPre?)
    ensures t < |c.threads| ==> c.threads[t].IgnStart? || c.threads[t].IgnPre?
  {
    hide AdvanceThread;
    StepThreads(p, c, e);
    if e.Advance? && e.tid == t < |c.threads| {
      AdvanceEarly(p, c, t, e.gpio);
    }
  }

  lemma AdvanceEarly(p: Plan, c: Config, t: nat, gpio: bool)
    requires t < |c.threads|
    ensures var ph, ph' := c.threads[t], AdvanceThread(p, c, t, gpio).threads[t];
      ph'.IgnStart? || ph'.IgnPre? ==> ph.IgnStart? || ph.IgnPre?
  {
    hide MayMove;
    if Remaining(c.threads[t]) != [] {
      hide TryMove;
    } else {
      hide Act;
    }
  }

  lemma NothingYetStep(p: Plan, c: Config, e: Event)
    requires NothingYet(c)
    ensures NothingYet(Next(p, c, e))
  {
    hide AdvanceThread;
    var d := Next(p, c, e);
    StepWrites(p, c, e);
    StepThreads(p, c, e);
    forall t | 0 <= t < |d.threads| && (d.threads[t].IgnStart? || d.threads[t].IgnPre?) ensures NotBy(d.writes, 0, t) {
      StepEarly(p, c, e, t);
      assert NotBy(c.writes, 0, t);
    }
  }

  lemma {:induction false} RunNothingYet(p: Plan, lines: seq<bool>, es: seq<Event>)
    ensures NothingYet(Run(p, Init(lines), es))
    decreases |es|
  {
    hide AdvanceThread;
    if es != [] {
      RunNothingYet(p, lines, es[..|es| - 1]);
      NothingYetStep(p, Run(p, Init(lines), es[..|es| - 1]), es[|es| - 1]);
    }
  }

  predicate NoAdvanceOf(es: seq<Event>, t: nat) {
    forall i :: 0 <= i < |es| && es[i].Advance? ==> es[i].tid != t
  }

  lemma {:induction false} Asleep(p: Plan, c: Config, t: nat, es: seq<Event>)
    requires t < |c.threads| && NoAdvanceOf(es, t)
    ensures t < |Run(p, c, es).threads| && Run(p, c, es).threads[t] == c.threads[t]
    decreases |es|
  {
    if es != [] {
      Asleep(p, c, t, es[..|es| - 1]);
      StepThreads(p, Run(p, c, es[..|es| - 1]), es[|es| - 1]);
    }
  }

  lemma {:induction false} DoneStays(p: Plan, c: Config, t: nat, es: seq<Event>)
    requires t < |c.threads| && c.threads[t].Done?
    ensures var d := Run(p, c, es);
      && c.writes <= d.writes && t < |d.threads| && d.threads[t] == c.threads[t] && NotBy(d.writes, |c.writes|, t)
    decreases |es|
  {
    if es != [] {
      var b, e := Run(p, c, es[..|es| - 1]), es[|es| - 1];
      DoneStays(p, c, t, es[..|es| - 1]);
      var d := Next(p, b, e);
      StepExtends(p, b, e);
      StepThreads(p, b, e);
      StepWrites(p, b, e);
      forall i | |c.writes| <= i < |d.writes| ensures d.writes[i].author != Author.Ignition(t) {
        if i < |b.writes| { assert d.writes[i] == b.writes[i]; }
      }
    }
  }

  /** An emergency stop accepted during the pre-ignition wait of thread `t` (the system is at `c`
      right after it), and no later ignition before `t` wakes: in every interleaving the move of `t`
      to Ignite is refused, `t` returns, and `t` never writes a driver, before, during or ever after. */
  lemma PreIgnitionCancelled(p: Plan, lines: seq<bool>, past: seq<Event>, t: nat,
                             asleep: seq<Event>, gpio: bool, future: seq<Event>)
    requires var c := Run(p, Init(lines), past);
      && c.guard == EStopping && t < |c.threads| && c.threads[t].IgnPre?
      && NoAdvanceOf(asleep, t) && NoIgnitionSince(Run(p, c, asleep).moves, |c.moves|)
    ensures var c := Run(p, Init(lines), past);
      var b := Run(p, c, asleep);
      var w := Next(p, b, Advance(t, gpio));
      && t < |b.threads|
      && w.guard == b.guard && w.lines == b.lines
      && w.threads == b.threads[t := Done(Rejected(IllegalTransition(b.guard, Ignite)))]
      && NotBy(Run(p, w, future).writes, 0, t)
  {
    var c := Run(p, Init(lines), past);
    var b := Run(p, c, asleep);
    Asleep(p, c, t, asleep);
    HarmlessStays(p, c, t, asleep);
    RunAppend(p, Init(lines), past, asleep);
    RunNothingYet(p, lines, past + asleep);
    var w := Next(p, b, Advance(t, gpio));
    assert NotBy(w.writes, 0, t);
    DoneStays(p, w, t, future);
    var d := Run(p, w, future);
    forall i | 0 <= i < |d.writes| ensures d.writes[i].author != Author.Ignition(t) {
      if i < |w.writes| { assert d.writes[i] == w.writes[i]; }
    }
  }

  // ---------------------------------------------------------------------------------------------
  // Two runs the documentation does not expect
  // ---------------------------------------------------------------------------------------------

  /** The cancelled wait of thread 0 outlives the emergency stop (thread 1): a second ignition
      (thread 2) reopens the gate, thread 0 walks through it, and thread 2 is the one refused. */
  lemma CancelledWaitResumes(acts: seq<Action>, lines: seq<bool>) returns (es: seq<Event>)
    ensures AllBenign(es, |lines|)
    ensures var c := Run(Plan(acts, []), Init(lines), es);
      && c.guard == Ignite
      && c.moves == [Move(Standby, PreIgnite), Move(PreIgnite, EStopping), Move(EStopping, Standby),
                     Move(Standby, PreIgnite), Move(PreIgnite, Ignite)]
      && c.threads == [IgnAct(acts), Done(Finished), Done(Rejected(IllegalTransition(Ignite, Ignite)))]
  {
    hide AdvanceThread, Run, Next, ApplyActions, WritesOf;
    var p, start := Plan(acts, []), Init(lines);
    // thread 0 waits
    var wait := [SpawnIgnition] + Solo(0, 1);
    WaitHead(p, lines);
    var waiting := Run(p, start, wait);
    // thread 1 stops
    StopRun(p, waiting);
    var stopped := Run(p, waiting, StopEvents(p, 1));
    RunAppend(p, start, wait, StopEvents(p, 1));
    assert stopped.threads == [IgnPre, Done(Finished)];
    // thread 2 waits, thread 0 ignites, thread 2 is refused
    var last := [SpawnIgnition, Advance(2, true), Advance(0, true), Advance(2, true)];
    ResumeTail(p, stopped);
    RunAppend(p, start, wait + StopEvents(p, 1), last);
    es := wait + StopEvents(p, 1) + last;
    assert stopped.moves + [Move(Standby, PreIgnite), Move(PreIgnite, Ignite)]
        == [Move(Standby, PreIgnite), Move(PreIgnite, EStopping), Move(EStopping, Standby),
            Move(Standby, PreIgnite), Move(PreIgnite, Ignite)];
  }

  lemma WaitHead(p: Plan, lines: seq<bool>)
    ensures Run(p, Init(lines), [SpawnIgnition] + Solo(0, 1))
         == Config(PreIgnite, lines, false, false, [IgnPre], [], [Move(Standby, PreIgnite)])
  {
    var b := Next(p, Init(lines), SpawnIgnition);
    RunCons(p, Init(lines), SpawnIgnition, Solo(0, 1));
    SoloOne(p, b, 0);
    assert b.threads == [IgnStart] && [IgnStart][0 := IgnPre] == [IgnPre];
  }

  lemma ResumeTail(p: Plan, c: Config)
    requires c.guard == Standby && c.threads == [IgnPre, Done(Finished)]
    ensures Run(p, c, [SpawnIgnition, Advance(2, true), Advance(0, true), Advance(2, true)])
         == c.(guard := Ignite, moves := c.moves + [Move(Standby, PreIgnite), Move(PreIgnite, Ignite)],
               threads := [IgnAct(p.ignition), Done(Finished), Done(Rejected(IllegalTransition(Ignite, Ignite)))])
  {
    var a := Next(p, c, SpawnIgnition);
    var b := Next(p, a, Advance(2, true));
    var d := Next(p, b, Advance(0, true));
    RunTwo(p, c, SpawnIgnition, Advance(2, true));
    RunTwo(p, b, Advance(0, true), Advance(2, true));
    RunAppend(p, c, [SpawnIgnition, Advance(2, true)], [Advance(0, true), Advance(2, true)]);
    assert [SpawnIgnition, Advance(2, true)] + [Advance(0, true), Advance(2, true)]
        == [SpawnIgnition, Advance(2, true), Advance(0, true), Advance(2, true)];
    assert b.threads == [IgnPre, Done(Finished), IgnPre];
    assert d.threads == [IgnAct(p.ignition), Done(Finished), IgnPre];
    assert d.moves == c.moves + [Move(Standby, PreIgnite), Move(PreIgnite, Ignite)];
  }

  /** An emergency stop that runs to its end can be undone afterwards by the ignition it was meant to
      halt: the stop drives driver 0 low and returns the guard to Standby, then the stale thread
      drives it high, and the system comes to rest that way. */
  lemma EStopUndone() returns (es: seq<Event>)
    ensures AllBenign(es, 1)
    ensures var c := Run(Plan([Actuate(0, true)], [Actuate(0, false)]), Init([false]), es);
      && Quiet(c) && c.guard == Standby && c.lines == [true]
      && c.moves == [Move(Standby, PreIgnite), Move(PreIgnite, Ignite), Move(Ignite, EStopping), Move(EStopping, Standby)]
      && c.writes == [Write(EStop(1), 0, false), Write(Author.Ignition(0), 0, true)]
  {
    hide AdvanceThread, Run, Next;
    var p, start := Plan([Actuate(0, true)], [Actuate(0, false)]), Init([false]);
    IgniteRun(p, start);
    var acting := Run(p, start, IgniteEvents(0));
    assert acting.threads == [IgnAct(p.ignition)];
    StopRun(p, acting);
    var stopped := Run(p, acting, StopEvents(p, 1));
    RunAppend(p, start, IgniteEvents(0), StopEvents(p, 1));
    assert p.estop[..0] == [] && p.ignition[1..] == [];
    assert ApplyActions([false], p.estop) == [false] && WritesOf(EStop(1), p.estop) == [Write(EStop(1), 0, false)];
    assert stopped.threads == [IgnAct(p.ignition), Done(Finished)];
    UndoneTail(p, stopped);
    var last := [Advance(0, true), Advance(0, true)];
    RunAppend(p, start, IgniteEvents(0) + StopEvents(p, 1), last);
    es := IgniteEvents(0) + StopEvents(p, 1) + last;
  }

  lemma UndoneTail(p: Plan, c: Config)
    requires c.guard == Standby && c.threads == [IgnAct([Actuate(0, true)]), Done(Finished)]
    requires c.lines == [false] && !c.poisoned && !c.held
    ensures Run(p, c, [Advance(0, true), Advance(0, true)])
         == c.(lines := [true], writes := c.writes + [Write(Author.Ignition(0), 0, true)],
               threads := [Done(Rejected(IllegalTransition(Standby, PostIgnite))), Done(Finished)])
  {
    var acts := [Actuate(0, true)];
    ActsOne(p, c, 0, true, acts);
    assert acts[1..] == [];
    RunTwo(p, c, Advance(0, true), Advance(0, true));
  }
}
