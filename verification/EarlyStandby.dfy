/** How long the guard stays in EStopping while an emergency stop acts. The table lets anyone who asks go
    from EStopping to Standby, and from there a new ignition is accepted. */
module EarlyStandby {
  import opened StateGuard
  import opened Protocol
  import opened Solos
  import opened DriverLock
  import opened Liveness
  import opened Occupancy
  import opened Cancel

  predicate NoneSince(moves: seq<Move>, from: nat, s: State) {
    forall i :: from <= i < |moves| ==> moves[i].to != s
  }

  /** Some fault-free continuation without a newly accepted stop has an ignition accepted while stop `t` is
      still acting. */
  ghost predicate CanBeCutShort(p: Plan, c: Config, t: nat) {
    exists es ::
      && AllBenign(es, |c.lines|)
      && NoneSince(Run(p, c, es).moves, |c.moves|, EStopping)
      && !NoneSince(Run(p, c, es).moves, |c.moves|, PreIgnite)
      && t < |Run(p, c, es).threads| && Run(p, c, es).threads[t].EsAct?
  }

  /** A thread other than `t` that will ask for Standby. */
  predicate Releases(ph: Phase) {
    ph.IgnPost? || ph.EsAct?
  }

  /** As long as stop `t` acts, the guard is in EStopping and nobody else can take it out. */
  predicate Guarded(c: Config, t: nat, from: nat) {
    && t < |c.threads| && from <= |c.moves|
    && (c.threads[t].Done? || c.threads[t].EsAct?)
    && (c.threads[t].EsAct? ==>
          && c.guard == EStopping
          && (forall u :: 0 <= u < |c.threads| && u != t ==> !Releases(c.threads[u]))
          && NoneSince(c.moves, from, PreIgnite))
  }

  /** In EStopping a thread that is no stop and not cooling down is refused every move. */
  lemma RefusedThere(p: Plan, c: Config, u: nat, gpio: bool)
    requires u < |c.threads| && c.guard == EStopping && !Releases(c.threads[u])
    ensures var d := AdvanceThread(p, c, u, gpio);
      if c.threads[u].EsStart? then d.moves == c.moves + [Move(EStopping, EStopping)]
      else d.moves == c.moves && d.guard == c.guard && !Releases(d.threads[u])
  {
  }

  /** The stop itself goes on, or ends. */
  lemma StopItself(p: Plan, c: Config, t: nat, gpio: bool)
    requires t < |c.threads| && c.threads[t].EsAct? && c.guard == EStopping
    ensures var d := AdvanceThread(p, c, t, gpio);
      d.threads[t].Done? || (d.threads[t].EsAct? && d.moves == c.moves && d.guard == c.guard)
  {
    if c.threads[t].rest != [] {
      hide TryMove;
    } else {
      hide Act;
    }
  }

  lemma Accepted(moves: seq<Move>, from: nat, s: State)
    requires from <= |moves|
    ensures !NoneSince(moves + [Move(EStopping, s)], from, s)
  {
    assert (moves + [Move(EStopping, s)])[|moves|].to == s;
  }

  lemma GuardedStep(p: Plan, c: Config, e: Event, t: nat, from: nat)
    requires Guarded(c, t, from) && NoneSince(Next(p, c, e).moves, from, EStopping)
    ensures Guarded(Next(p, c, e), t, from)
  {
    hide AdvanceThread;
    var d := Next(p, c, e);
    StepThreads(p, c, e);
    StepMoves(p, c, e);
    if c.threads[t].Done? {
      DoneStays(p, c, t, [] + [e]);
      RunSnoc(p, c, [], e);
    } else if e.Advance? && e.tid < |c.threads| {
      AdvanceOnly(p, c, e.tid, e.gpio);
      if e.tid == t {
        StopItself(p, c, t, e.gpio);
      } else {
        RefusedThere(p, c, e.tid, e.gpio);
        Accepted(c.moves, from, EStopping);
      }
    }
  }

  lemma {:induction false} RunGuarded(p: Plan, c: Config, t: nat, es: seq<Event>)
    requires Guarded(c, t, |c.moves|) && NoneSince(Run(p, c, es).moves, |c.moves|, EStopping)
    ensures Guarded(Run(p, c, es), t, |c.moves|)
    decreases |es|
  {
    hide AdvanceThread, Next, Guarded;
    if es != [] {
      var b, e := Run(p, c, es[..|es| - 1]), es[|es| - 1];
      StepExtends(p, b, e);
      RunExtends(p, c, es[..|es| - 1]);
      assert NoneSince(b.moves, |c.moves|, EStopping) by {
        forall i | |c.moves| <= i < |b.moves| ensures b.moves[i].to != EStopping { assert b.moves[i] == Next(p, b, e).moves[i]; }
      }
      RunGuarded(p, c, t, es[..|es| - 1]);
      GuardedStep(p, b, e, t, |c.moves|);
    }
  }

  /** A cooling-down ignition or another stop, alone, takes the guard to Standby. */
  lemma LetGo(p: Plan, c: Config, u: nat) returns (es: seq<Event>)
    requires c.guard == EStopping && Healthy(c, |c.lines|) && u < |c.threads| && Releases(c.threads[u])
    ensures AllBenign(es, |c.lines|)
    ensures var d := Run(p, c, es);
      && d.guard == Standby && |d.lines| == |c.lines| && d.moves == c.moves + [Move(EStopping, Standby)]
      && d.threads == c.threads[u := Done(Finished)]
  {
    hide AdvanceThread;
    var free := Next(p, c, Release);
    RunSnoc(p, c, [], Release);
    var rest := Remaining(c.threads[u]);
    assert PhaseInRange(c.threads[u], |c.lines|);
    assert rest[..|rest|] == rest && rest[|rest|..] == [];
    if c.threads[u].EsAct? {
      ActsAlone(p, free, u, false, rest, |rest|);
    } else {
      assert Solo(u, 0) == [];
    }
    var b := Run(p, free, Solo(u, |rest|));
    LastStep(p, b, u);
    RunSnoc(p, free, Solo(u, |rest|), Advance(u, true));
    RunAppend(p, c, [] + [Release], Solo(u, |rest|) + [Advance(u, true)]);
    es := [] + [Release] + (Solo(u, |rest|) + [Advance(u, true)]);
    assert b.threads[u := Done(Finished)] == c.threads[u := Done(Finished)];
  }

  lemma LastStep(p: Plan, c: Config, u: nat)
    requires c.guard == EStopping && u < |c.threads| && c.threads[u] in {IgnPost, EsAct([])}
    ensures Next(p, c, Advance(u, true))
         == c.(guard := Standby, threads := c.threads[u := Done(Finished)], moves := c.moves + [Move(EStopping, Standby)])
  {
  }

  /** While stop `t` acts and no further stop is accepted, a new ignition can be accepted if and only if
      another thread is cooling down from an ignition or acting a stop. */
  lemma {:induction false} CutShortExactly(p: Plan, c: Config, t: nat)
    requires c.guard == EStopping && Healthy(c, |c.lines|) && t < |c.threads| && c.threads[t].EsAct?
    ensures CanBeCutShort(p, c, t) <==> exists u :: 0 <= u < |c.threads| && u != t && Releases(c.threads[u])
  {
    hide AdvanceThread, Next, Run;
    if exists u :: 0 <= u < |c.threads| && u != t && Releases(c.threads[u]) {
      var u :| 0 <= u < |c.threads| && u != t && Releases(c.threads[u]);
      var opening := LetGo(p, c, u);
      var b := Run(p, c, opening);
      var wait := StartEvents(Waiting, |b.threads|);
      WaitRun(p, b);
      RunAppend(p, c, opening, wait);
      var es := opening + wait;
      var d := Run(p, c, es);
      assert d.moves == c.moves + [Move(EStopping, Standby)] + [Move(Standby, PreIgnite)];
      assert d.moves[|c.moves| + 1].to == PreIgnite;
      assert d.threads[t] == c.threads[t];
      assert CanBeCutShort(p, c, t);
    } else {
      forall es | NoneSince(Run(p, c, es).moves, |c.moves|, EStopping)
        ensures t < |Run(p, c, es).threads| && Run(p, c, es).threads[t].EsAct? ==>
                  NoneSince(Run(p, c, es).moves, |c.moves|, PreIgnite)
      {
        RunGuarded(p, c, t, es);
      }
    }
  }

  /** It takes one stop only: from start-up, for any ignition sequence of existing drivers, a fault-free run
      reaches a state where the only stop can be cut short before its first action. */
  lemma OneStopCutShort(p: Plan, lines: seq<bool>) returns (es: seq<Event>)
    requires PlanInRange(p, |lines|)
    ensures AllBenign(es, |lines|)
    ensures var c := Run(p, Init(lines), es);
      c.threads == [IgnPost, EsAct(p.estop)] && c.guard == EStopping && CanBeCutShort(p, c, 1)
  {
    hide AdvanceThread, Next, Run;
    var n := |p.ignition|;
    IgniteRun(p, Init(lines));
    var acting := Run(p, Init(lines), IgniteEvents(0));
    assert acting.threads == [IgnAct(p.ignition)];
    assert p.ignition[..n] == p.ignition && p.ignition[n..] == [];
    ActsAlone(p, acting, 0, true, p.ignition, n);
    var acted := Run(p, acting, Solo(0, n));
    assert acted.threads == [IgnAct([])];
    PostAndStop(p, acted);
    var last := [Advance(0, true), SpawnEStop] + [Advance(1, true)];
    RunAppend(p, Init(lines), IgniteEvents(0), Solo(0, n));
    RunAppend(p, Init(lines), IgniteEvents(0) + Solo(0, n), last);
    es := IgniteEvents(0) + Solo(0, n) + last;
    NoStuckState(p, lines, es);
    assert Releases(Run(p, Init(lines), es).threads[0]);
    CutShortExactly(p, Run(p, Init(lines), es), 1);
  }

  lemma PostAndStop(p: Plan, c: Config)
    requires c.guard == Ignite && c.threads == [IgnAct([])]
    ensures var d := Run(p, c, [Advance(0, true), SpawnEStop] + [Advance(1, true)]);
      d.guard == EStopping && d.threads == [IgnPost, EsAct(p.estop)] && d.lines == c.lines
  {
    var a := Next(p, c, Advance(0, true));
    var b := Next(p, a, SpawnEStop);
    RunTwo(p, c, Advance(0, true), SpawnEStop);
    RunSnoc(p, c, [Advance(0, true), SpawnEStop], Advance(1, true));
    assert a.threads == [IgnPost] && b.threads == [IgnPost, EsStart];
  }
}
