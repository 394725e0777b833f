/** When an emergency stop is the last word: whatever was under way when it was accepted, the drivers end
    where the shutoff sequence puts them. */
module Finality {
  import opened StateGuard
  import opened Protocol
  import opened Solos
  import opened DriverLock
  import opened Liveness
  import opened Occupancy
  import opened Confluence
  import opened Cancel

  predicate NoManual(es: seq<Event>) {
    forall i :: 0 <= i < |es| ==> !es[i].Manual?
  }

  /** No thread is in the middle of its actions. */
  predicate NobodyActs(c: Config) {
    forall t :: 0 <= t < |c.threads| ==> !c.threads[t].IgnAct? && !c.threads[t].EsAct?
  }

  /** Every fault-free continuation without manual commands and without a new ignition, in which a stop
      is accepted and by whose end nobody acts any more, leaves the drivers where the shutoff sequence
      puts them. */
  ghost predicate StopIsFinal(p: Plan, c: Config) {
    forall es ::
      && AllBenign(es, |c.lines|) && NoManual(es)
      && NoIgnitionSince(Run(p, c, es).moves, |c.moves|)
      && Stopped(Run(p, c, es).moves, |c.moves|)
      && NobodyActs(Run(p, c, es))
      ==> Run(p, c, es).lines == ApplyActions(c.lines, p.estop)
  }

  /** What is left of a sequence puts every driver it names where `want` has it. */
  predicate Agrees(acts: seq<Action>, want: seq<bool>) {
    forall d :: 0 <= d < |want| && Names(acts, d) ==> LastValue(acts, d) == want[d]
  }

  /** Everything under way agrees, and so does the ignition a waiting thread can still begin. */
  predicate AllAgree(p: Plan, c: Config, want: seq<bool>) {
    forall t :: 0 <= t < |c.threads| ==>
      && Agrees(Remaining(c.threads[t]), want)
      && (c.guard == PreIgnite && c.threads[t].IgnPre? ==> Agrees(p.ignition, want))
  }

  // ---------------------------------------------------------------------------------------------
  // Agreement suffices
  // ---------------------------------------------------------------------------------------------

  /** Some thread has an actuation of `d` ahead of it. */
  predicate Awaited(c: Config, d: nat) {
    exists t :: 0 <= t < |c.threads| && Names(Remaining(c.threads[t]), d)
  }

  /** Driver `d` is where it should be, or on its way there. */
  predicate OnItsWay(p: Plan, c: Config, d: nat, want: seq<bool>, from: nat)
    requires d < |want| == |c.lines|
  {
    c.lines[d] == want[d] || Awaited(c, d) || (Names(p.estop, d) && !Stopped(c.moves, from))
  }

  predicate Converging(p: Plan, c: Config, want: seq<bool>, from: nat) {
    && Healthy(c, |want|) && from <= |c.moves|
    && AllAgree(p, c, want)
    && forall d :: 0 <= d < |want| ==> OnItsWay(p, c, d, want, from)
  }

  lemma FirstOrRest(acts: seq<Action>, d: nat)
    requires acts != []
    ensures Names(acts, d) <==> (acts[0].Actuate? && acts[0].driverId == d) || Names(acts[1..], d)
  {
    assert acts == [acts[0]] + acts[1..];
    NamesParts([acts[0]], acts[1..], d);
    assert [acts[0]][0] == acts[0];
  }

  /** The last value does not depend on what came first. */
  lemma {:induction false} LastOfRest(acts: seq<Action>, d: nat)
    requires acts != [] && Names(acts[1..], d)
    ensures Names(acts, d) && LastValue(acts, d) == LastValue(acts[1..], d)
    decreases |acts|
  {
    FirstOrRest(acts, d);
    var last, rest := acts[|acts| - 1], acts[1..];
    assert rest[|rest| - 1] == last;
    if !(last.Actuate? && last.driverId == d) {
      var init := acts[..|acts| - 1];
      assert init[1..] == rest[..|rest| - 1];
      var i :| 0 <= i < |rest| && rest[i].Actuate? && rest[i].driverId == d;
      assert init[1..][i] == rest[i];
      LastOfRest(init, d);
    }
  }

  lemma AgreesTail(acts: seq<Action>, want: seq<bool>)
    requires acts != [] && Agrees(acts, want)
    ensures Agrees(acts[1..], want)
  {
    forall d | 0 <= d < |want| && Names(acts[1..], d) ensures LastValue(acts[1..], d) == want[d] {
      LastOfRest(acts, d);
    }
  }

  lemma StopAgrees(p: Plan, lines: seq<bool>)
    ensures Agrees(p.estop, ApplyActions(lines, p.estop))
  {
    forall d | 0 <= d < |lines| && Names(p.estop, d) ensures LastValue(p.estop, d) == ApplyActions(lines, p.estop)[d] {
      ApplyValue(lines, p.estop, d);
    }
  }

  /** A thread performs its next action. */
  lemma ActionStep(p: Plan, c: Config, t: nat)
    requires t < |c.threads| && Remaining(c.threads[t]) != [] && !Blocked(c, t) && Healthy(c, |c.lines|)
    ensures var n := AdvanceThread(p, c, t, true); var a := Remaining(c.threads[t])[0];
      && n.threads == c.threads[t := n.threads[t]] && Remaining(n.threads[t]) == Remaining(c.threads[t])[1..]
      && !n.threads[t].IgnPre?
      && n.moves == c.moves && n.guard == c.guard
      && (a.Actuate? ==> a.driverId < |c.lines|)
      && n.lines == if a.Actuate? then c.lines[a.driverId := a.value] else c.lines
  {
    hide TryMove;
    assert PhaseInRange(c.threads[t], |c.lines|);
  }

  lemma ConvergingAction(p: Plan, c: Config, t: nat, want: seq<bool>, from: nat)
    requires PlanInRange(p, |want|) && Converging(p, c, want, from)
    requires t < |c.threads| && Remaining(c.threads[t]) != [] && !Blocked(c, t)
    ensures Converging(p, AdvanceThread(p, c, t, true), want, from)
  {
    hide AdvanceThread, Names, LastValue, Agrees, Stopped, Healthy;
    var n, rest := AdvanceThread(p, c, t, true), Remaining(c.threads[t]);
    HealthyNow(c, |want|);
    ActionStep(p, c, t);
    HealthyStep(p, c, Advance(t, true), |want|);
    AgreesTail(rest, want);
    forall d | 0 <= d < |want| ensures OnItsWay(p, n, d, want, from) {
      FirstOrRest(rest, d);
      assert OnItsWay(p, c, d, want, from);
      if Names(rest[1..], d) {
        assert Names(Remaining(n.threads[t]), d);
      } else if Names(rest, d) {
        LastFirst(rest, want);
      } else if Awaited(c, d) {
        var u :| 0 <= u < |c.threads| && Names(Remaining(c.threads[u]), d);
        assert Names(Remaining(n.threads[u]), d);
      }
    }
  }

  lemma HealthyNow(c: Config, n: nat)
    requires Healthy(c, n)
    ensures |c.lines| == n && !c.poisoned
  {
  }

  /** An actuation that is not repeated is the last one. */
  lemma LastFirst(acts: seq<Action>, want: seq<bool>)
    requires acts != [] && Agrees(acts, want)
    ensures acts[0].Actuate? && acts[0].driverId < |want| && !Names(acts[1..], acts[0].driverId) ==>
              acts[0].value == want[acts[0].driverId]
  {
    if acts[0].Actuate? && !Names(acts[1..], acts[0].driverId) {
      LastHere(acts, 0);
    }
  }

  /** A step that is no action: it writes nothing, and if it accepts a stop that stop has everything
      ahead of it. */
  lemma OtherStep(p: Plan, c: Config, e: Event)
    requires !e.Manual?
    requires e.Advance? && e.tid < |c.threads| ==> Remaining(c.threads[e.tid]) == []
    ensures var n := Next(p, c, e);
      && n.lines == c.lines && |c.threads| <= |n.threads|
      && (forall t :: 0 <= t < |n.threads| ==>
            || Remaining(n.threads[t]) in {[], p.estop}
            || (t < |c.threads| && n.threads[t] == c.threads[t])
            || (t < |c.threads| && c.guard == PreIgnite && c.threads[t].IgnPre? && Remaining(n.threads[t]) == p.ignition))
      && (n.moves == c.moves ==> forall t :: 0 <= t < |n.threads| && n.threads[t].IgnPre? ==> t < |c.threads| && c.threads[t].IgnPre?)
      && (forall t :: 0 <= t < |c.threads| && Remaining(c.threads[t]) != [] ==> n.threads[t] == c.threads[t])
      && (n.moves != c.moves && n.guard == EStopping ==>
            exists t :: 0 <= t < |n.threads| && Remaining(n.threads[t]) == p.estop)
  {
    hide AdvanceThread;
    StepThreads(p, c, e);
    if e.Advance? && e.tid < |c.threads| {
      AdvanceOnly(p, c, e.tid, e.gpio);
      OtherAdvance(p, c, e.tid, e.gpio);
    }
  }

  lemma OtherAdvance(p: Plan, c: Config, t: nat, gpio: bool)
    requires t < |c.threads| && Remaining(c.threads[t]) == []
    ensures var n := AdvanceThread(p, c, t, gpio);
      && n.lines == c.lines
      && (Remaining(n.threads[t]) in {[], p.estop}
          || (c.guard == PreIgnite && c.threads[t].IgnPre? && Remaining(n.threads[t]) == p.ignition))
      && (n.moves == c.moves && n.threads[t].IgnPre? ==> c.threads[t].IgnPre?)
      && (n.moves != c.moves && n.guard == EStopping ==> Remaining(n.threads[t]) == p.estop)
  {
    hide Act;
  }

  lemma ConvergingOther(p: Plan, c: Config, e: Event, want: seq<bool>, from: nat)
    requires PlanInRange(p, |want|) && Converging(p, c, want, from) && Agrees(p.estop, want)
    requires !e.Manual? && Benign(e, |want|)
    requires Next(p, c, e).moves != c.moves ==> Next(p, c, e).guard != PreIgnite
    requires e.Advance? && e.tid < |c.threads| ==> Remaining(c.threads[e.tid]) == []
    ensures Converging(p, Next(p, c, e), want, from)
  {
    hide AdvanceThread, Next, Names, Agrees, Healthy, Stopped;
    var n := Next(p, c, e);
    HealthyNow(c, |want|);
    HealthyStep(p, c, e, |want|);
    HealthyNow(n, |want|);
    OtherStep(p, c, e);
    StepMoves(p, c, e);
    NothingAgrees(want);
    if n.moves != c.moves {
      StoppedSnoc(c.moves, Move(c.guard, n.guard), from);
    }
    forall d | 0 <= d < |want| ensures OnItsWay(p, n, d, want, from) {
      assert OnItsWay(p, c, d, want, from);
      NoNames(d);
      if Awaited(c, d) {
        var u :| 0 <= u < |c.threads| && Names(Remaining(c.threads[u]), d);
        assert Names(Remaining(n.threads[u]), d);
      }
    }
  }

  lemma NothingAgrees(want: seq<bool>)
    ensures Agrees([], want)
  {
  }

  lemma NoNames(d: nat)
    ensures !Names([], d)
  {
  }

  /** Along the whole continuation. */
  lemma {:induction false} RunConverges(p: Plan, c: Config, es: seq<Event>, want: seq<bool>)
    requires PlanInRange(p, |want|) && Converging(p, c, want, |c.moves|) && Agrees(p.estop, want)
    requires AllBenign(es, |want|) && NoManual(es) && NoIgnitionSince(Run(p, c, es).moves, |c.moves|)
    ensures Converging(p, Run(p, c, es), want, |c.moves|)
    decreases |es|
  {
    hide AdvanceThread, Next, Agrees, Converging;
    if es != [] {
      var before, e := es[..|es| - 1], es[|es| - 1];
      var b := Run(p, c, before);
      var d := Next(p, b, e);
      StepExtends(p, b, e);
      StepMoves(p, b, e);
      RunExtends(p, c, before);
      assert NoIgnitionSince(b.moves, |c.moves|) by {
        forall i | |c.moves| <= i < |b.moves| ensures b.moves[i].to != PreIgnite { assert b.moves[i] == d.moves[i]; }
      }
      RunConverges(p, c, before, want);
      assert Benign(e, |want|) && !e.Manual?;
      if d.moves != b.moves {
        assert d.moves[|b.moves|].to == d.guard;
      }
      ConvergingStep(p, b, e, want, |c.moves|);
    }
  }

  lemma ConvergingStep(p: Plan, c: Config, e: Event, want: seq<bool>, from: nat)
    requires PlanInRange(p, |want|) && Converging(p, c, want, from) && Agrees(p.estop, want)
    requires !e.Manual? && Benign(e, |want|)
    requires Next(p, c, e).moves != c.moves ==> Next(p, c, e).guard != PreIgnite
    ensures Converging(p, Next(p, c, e), want, from)
  {
    hide AdvanceThread, Agrees, Names, OnItsWay;
    StepMoves(p, c, e);
    if e.Advance? && e.tid < |c.threads| && Remaining(c.threads[e.tid]) != [] {
      if Blocked(c, e.tid) {
        BlockedExactly(p, c, e.tid, e.gpio);
      } else {
        ConvergingAction(p, c, e.tid, want, from);
      }
    } else {
      ConvergingOther(p, c, e, want, from);
    }
  }

  // ---------------------------------------------------------------------------------------------
  // Agreement is needed
  // ---------------------------------------------------------------------------------------------

  predicate ActsNow(ph: Phase) {
    ph.IgnAct? || ph.EsAct?
  }

  /** A thread left over in its actions, alone, after the guard is back in Standby: it performs them all
      and is then refused. */
  lemma FinishOne(p: Plan, c: Config, t: nat) returns (es: seq<Event>)
    requires c.guard == Standby && !c.held && Healthy(c, |c.lines|)
    requires t < |c.threads| && ActsNow(c.threads[t])
    ensures AllBenign(es, |c.lines|) && NoManual(es)
    ensures var d := Run(p, c, es);
      && d.lines == ApplyActions(c.lines, Remaining(c.threads[t]))
      && d.guard == Standby && !d.held && d.moves == c.moves && Healthy(d, |c.lines|)
      && |d.threads| == |c.threads| && d.threads[t].Done?
      && forall u :: 0 <= u < |c.threads| && u != t ==> d.threads[u] == c.threads[u]
  {
    hide AdvanceThread;
    var ign, rest := c.threads[t].IgnAct?, Remaining(c.threads[t]);
    assert PhaseInRange(c.threads[t], |c.lines|);
    assert rest[..|rest|] == rest && rest[|rest|..] == [];
    ActsAlone(p, c, t, ign, rest, |rest|);
    var b := Run(p, c, Solo(t, |rest|));
    RunSnoc(p, c, Solo(t, |rest|), Advance(t, true));
    RefusedAtLast(p, b, t, ign);
    es := Solo(t, |rest|) + [Advance(t, true)];
  }

  lemma RefusedAtLast(p: Plan, c: Config, t: nat, ign: bool)
    requires c.guard == Standby && t < |c.threads| && c.threads[t] == ActingPhase(ign, [])
    ensures exists o :: Next(p, c, Advance(t, true)) == c.(threads := c.threads[t := Done(o)])
  {
    var o := Rejected(IllegalTransition(Standby, if ign then PostIgnite else Standby));
    assert Next(p, c, Advance(t, true)) == c.(threads := c.threads[t := Done(o)]);
  }

  /** All leftover threads below `k` but `t`, one after the other. */
  lemma {:induction false} FinishOthers(p: Plan, c: Config, k: nat, t: nat) returns (es: seq<Event>)
    requires c.guard == Standby && !c.held && Healthy(c, |c.lines|) && k <= |c.threads|
    ensures AllBenign(es, |c.lines|) && NoManual(es)
    ensures var d := Run(p, c, es);
      && d.guard == Standby && !d.held && d.moves == c.moves && Healthy(d, |c.lines|) && |d.threads| == |c.threads|
      && (forall u :: 0 <= u < k && u != t ==> !ActsNow(d.threads[u]))
      && (forall u :: 0 <= u < |c.threads| && (u >= k || u == t) ==> d.threads[u] == c.threads[u])
    decreases k
  {
    hide AdvanceThread, Healthy, Next, Run;
    if k == 0 {
      es := [];
      RunNone(p, c);
    } else {
      es := FinishOthers(p, c, k - 1, t);
      var b := Run(p, c, es);
      HealthyNow(b, |c.lines|);
      if k - 1 != t && ActsNow(b.threads[k - 1]) {
        var more := FinishOne(p, b, k - 1);
        RunAppend(p, c, es, more);
        es := es + more;
      }
    }
  }

  /** If something under way disagrees about driver `d`, it can have the last word. */
  lemma Overridden(p: Plan, c: Config, t: nat, d: nat) returns (es: seq<Event>)
    requires PlanInRange(p, |c.lines|) && Healthy(c, |c.lines|) && c.guard != Quit
    requires t < |c.threads| && d < |c.lines| && Names(Remaining(c.threads[t]), d)
    ensures AllBenign(es, |c.lines|) && NoManual(es)
    ensures var r := Run(p, c, es);
      && NoIgnitionSince(r.moves, |c.moves|) && Stopped(r.moves, |c.moves|) && NobodyActs(r)
      && |r.lines| == |c.lines| && r.lines[d] == LastValue(Remaining(c.threads[t]), d)
  {
    hide AdvanceThread, Run, ApplyActions, WritesOf, LastValue, Healthy, Names;
    var n, rest := |c.lines|, Remaining(c.threads[t]);
    HealthyNow(c, n);
    var free := Next(p, c, Release);
    RunNone(p, c);
    RunSnoc(p, c, [], Release);
    HealthyStep(p, c, Release, n);
    var stop := StopEvents(p, |c.threads|);
    StopRun(p, free);
    StillHealthy(p, free, stop, n);
    RunAppend(p, c, [] + [Release], stop);
    var b := Run(p, free, stop);
    NoNames(d);
    assert ActsNow(b.threads[t]) && Remaining(b.threads[t]) == rest;
    var others := FinishOthers(p, b, |b.threads|, t);
    var m := Run(p, b, others);
    HealthyNow(m, n);
    var last := FinishOne(p, m, t);
    var r := Run(p, m, last);
    RunAppend(p, b, others, last);
    RunAppend(p, c, [] + [Release] + stop, others + last);
    es := [] + [Release] + stop + (others + last);
    ApplyValue(m.lines, rest, d);
    assert r.moves[|c.moves|].to == EStopping;
  }

  /** The same for an ignition that can still begin. */
  lemma OverriddenByWaiting(p: Plan, c: Config, t: nat, d: nat) returns (es: seq<Event>)
    requires PlanInRange(p, |c.lines|) && Healthy(c, |c.lines|) && c.guard == PreIgnite
    requires t < |c.threads| && c.threads[t].IgnPre? && d < |c.lines| && Names(p.ignition, d)
    ensures AllBenign(es, |c.lines|) && NoManual(es)
    ensures var r := Run(p, c, es);
      && NoIgnitionSince(r.moves, |c.moves|) && Stopped(r.moves, |c.moves|) && NobodyActs(r)
      && |r.lines| == |c.lines| && r.lines[d] == LastValue(p.ignition, d)
  {
    hide AdvanceThread, Run, LastValue, Healthy, Names;
    HealthyStep(p, c, Advance(t, true), |c.lines|);
    GateStep(p, c, t);
    var b := Next(p, c, Advance(t, true));
    RunNone(p, c);
    RunSnoc(p, c, [], Advance(t, true));
    var rest := Overridden(p, b, t, d);
    var r := Run(p, b, rest);
    RunAppend(p, c, [] + [Advance(t, true)], rest);
    RunExtends(p, b, rest);
    es := [] + [Advance(t, true)] + rest;
    assert r.moves[|c.moves|] == b.moves[|c.moves|] == Move(PreIgnite, Ignite);
    var i :| |b.moves| <= i < |r.moves| && r.moves[i].to == EStopping;
  }

  /** Whatever is under way, an emergency stop has the last word if and only if what every acting thread
      has left, and in PreIgnite the sequence a waiting thread can begin, puts the drivers it names where
      the shutoff sequence leaves them. In Quit no stop is accepted any more. */
  lemma {:induction false} StopIsFinalExactly(p: Plan, c: Config)
    requires PlanInRange(p, |c.lines|) && Healthy(c, |c.lines|)
    ensures StopIsFinal(p, c) <==> c.guard == Quit || AllAgree(p, c, ApplyActions(c.lines, p.estop))
  {
    hide AdvanceThread, Next;
    var want := ApplyActions(c.lines, p.estop);
    if c.guard == Quit {
      forall es ensures !Stopped(Run(p, c, es).moves, |c.moves|) {
        QuitForGood(p, c, es);
      }
    } else if AllAgree(p, c, want) {
      StopAgrees(p, c.lines);
      StartsConverging(p, c);
      forall es |
        && AllBenign(es, |c.lines|) && NoManual(es)
        && NoIgnitionSince(Run(p, c, es).moves, |c.moves|)
        && Stopped(Run(p, c, es).moves, |c.moves|)
        && NobodyActs(Run(p, c, es))
        ensures Run(p, c, es).lines == want
      {
        RunConverges(p, c, es, want);
        Converged(p, Run(p, c, es), want, |c.moves|);
      }
    } else {
      var t :| 0 <= t < |c.threads| &&
        !(Agrees(Remaining(c.threads[t]), want) && (c.guard == PreIgnite && c.threads[t].IgnPre? ==> Agrees(p.ignition, want)));
      if !Agrees(Remaining(c.threads[t]), want) {
        var d :| 0 <= d < |want| && Names(Remaining(c.threads[t]), d) && LastValue(Remaining(c.threads[t]), d) != want[d];
        var es := Overridden(p, c, t, d);
        assert !StopIsFinal(p, c);
      } else {
        var d :| 0 <= d < |want| && Names(p.ignition, d) && LastValue(p.ignition, d) != want[d];
        var es := OverriddenByWaiting(p, c, t, d);
        assert !StopIsFinal(p, c);
      }
    }
  }

  lemma {:induction false} QuitForGood(p: Plan, c: Config, es: seq<Event>)
    requires c.guard == Quit
    ensures Run(p, c, es).guard == Quit && Run(p, c, es).moves == c.moves
    decreases |es|
  {
    hide AdvanceThread;
    if es != [] {
      QuitForGood(p, c, es[..|es| - 1]);
      StepMoves(p, Run(p, c, es[..|es| - 1]), es[|es| - 1]);
    }
  }

  lemma StartsConverging(p: Plan, c: Config)
    requires Healthy(c, |c.lines|) && AllAgree(p, c, ApplyActions(c.lines, p.estop))
    ensures Converging(p, c, ApplyActions(c.lines, p.estop), |c.moves|)
  {
    hide AllAgree;
    var want := ApplyActions(c.lines, p.estop);
    forall d | 0 <= d < |want| ensures OnItsWay(p, c, d, want, |c.moves|) {
      ApplyValue(c.lines, p.estop, d);
    }
  }

  lemma Converged(p: Plan, c: Config, want: seq<bool>, from: nat)
    requires Converging(p, c, want, from) && NobodyActs(c) && Stopped(c.moves, from)
    ensures c.lines == want
  {
    hide AllAgree;
    forall d | 0 <= d < |want| ensures c.lines[d] == want[d] {
      assert OnItsWay(p, c, d, want, from);
      NoNames(d);
    }
  }
}
