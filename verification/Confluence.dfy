/** Overlapping emergency stops agree: however many threads perform the shutoff sequence, and however
    their actions interleave, the drivers end where one uninterrupted run would leave them. */
module Confluence {
  import opened StateGuard
  import opened Protocol
  import opened DriverLock
  import opened Liveness

  /** The sequence actuates driver `d`. */
  predicate Names(acts: seq<Action>, d: nat) {
    exists i :: 0 <= i < |acts| && acts[i].Actuate? && acts[i].driverId == d
  }

  /** The value of the last actuation of `d`. */
  function LastValue(acts: seq<Action>, d: nat): bool
    requires Names(acts, d)
  {
    var last := acts[|acts| - 1];
    if last.Actuate? && last.driverId == d then last.value
    else
      assert Names(acts[..|acts| - 1], d) by {
        var i :| 0 <= i < |acts| && acts[i].Actuate? && acts[i].driverId == d;
        assert acts[..|acts| - 1][i] == acts[i];
      }
      LastValue(acts[..|acts| - 1], d)
  }

  /** `rest` is what is left of `acts` after some of it. */
  predicate Suffix(rest: seq<Action>, acts: seq<Action>) {
    |rest| <= |acts| && rest == acts[|acts| - |rest|..]
  }

  /** An uninterrupted run leaves every named driver at its last value and the others alone. */
  lemma {:induction false} ApplyValue(lines: seq<bool>, acts: seq<Action>, d: nat)
    requires d < |lines|
    ensures ApplyActions(lines, acts)[d] == if Names(acts, d) then LastValue(acts, d) else lines[d]
    decreases |acts|
  {
    if acts != [] {
      var before, last := acts[..|acts| - 1], acts[|acts| - 1];
      ApplyValue(lines, before, d);
      if Names(before, d) {
        var i :| 0 <= i < |before| && before[i].Actuate? && before[i].driverId == d;
        assert acts[i] == before[i];
      }
      if Names(acts, d) && !(last.Actuate? && last.driverId == d) {
        var i :| 0 <= i < |acts| && acts[i].Actuate? && acts[i].driverId == d;
        assert before[i] == acts[i];
      }
    }
  }

  lemma NamesParts(a: seq<Action>, b: seq<Action>, d: nat)
    ensures Names(a + b, d) <==> Names(a, d) || Names(b, d)
  {
    if Names(a, d) {
      var i :| 0 <= i < |a| && a[i].Actuate? && a[i].driverId == d;
      assert (a + b)[i] == a[i];
    }
    if Names(b, d) {
      var i :| 0 <= i < |b| && b[i].Actuate? && b[i].driverId == d;
      assert (a + b)[|a| + i] == b[i];
    }
  }

  /** If the rest of the sequence does not name `d` again, an actuation of `d` here is the last one. */
  lemma {:induction false} LastHere(acts: seq<Action>, i: nat)
    requires i < |acts| && acts[i].Actuate? && !Names(acts[i + 1..], acts[i].driverId)
    ensures Names(acts, acts[i].driverId) && LastValue(acts, acts[i].driverId) == acts[i].value
    decreases |acts|
  {
    var d, last := acts[i].driverId, |acts| - 1;
    if i < last {
      assert acts[i + 1..] == acts[..last][i + 1..] + [acts[last]];
      NamesParts(acts[..last][i + 1..], [acts[last]], d);
      assert [acts[last]][0] == acts[last];
      assert acts == acts[..last] + [acts[last]];
      LastHere(acts[..last], i);
      NamesParts(acts[..last], [acts[last]], d);
    }
  }

  // ---------------------------------------------------------------------------------------------
  // Bursts of emergency stops
  // ---------------------------------------------------------------------------------------------

  /** The event is an emergency stop's next action. */
  predicate StopsAction(c: Config, e: Event) {
    e.Advance? && e.tid < |c.threads| && c.threads[e.tid].EsAct? && c.threads[e.tid].rest != []
  }

  /** No event but an emergency stop's action changes a driver level or poisons the lock, and the pin
      writes of emergency stops work. */
  predicate StopOnly(p: Plan, c: Config, e: Event) {
    if StopsAction(c, e) then e.gpio
    else Next(p, c, e).lines == c.lines && Next(p, c, e).poisoned == c.poisoned
  }

  predicate Burst(p: Plan, c: Config, es: seq<Event>)
    decreases |es|
  {
    es == [] || (Burst(p, c, es[..|es| - 1]) && StopOnly(p, Run(p, c, es[..|es| - 1]), es[|es| - 1]))
  }

  /** Some emergency stop still has an actuation of `d` ahead of it. */
  predicate Pending(c: Config, d: nat) {
    exists t :: 0 <= t < |c.threads| && c.threads[t].EsAct? && Names(c.threads[t].rest, d)
  }

  predicate StopsAreSuffixes(p: Plan, c: Config) {
    forall t :: 0 <= t < |c.threads| && c.threads[t].EsAct? ==> Suffix(c.threads[t].rest, p.estop)
  }

  predicate Settled(p: Plan, c: Config, d: nat, start: seq<bool>)
    requires |c.lines| == |start|
  {
    d < |start| ==>
      if Names(p.estop, d) then Pending(c, d) || c.lines[d] == LastValue(p.estop, d)
      else c.lines[d] == start[d]
  }

  /** Has an emergency stop been accepted since the history had length `from`? */
  predicate Stopped(moves: seq<Move>, from: nat) {
    exists i :: from <= i < |moves| && moves[i].to == EStopping
  }

  /** What the burst keeps: before the first accepted stop nothing is written and nobody acts; from
      then on each driver is settled. */
  ghost predicate BurstInv(p: Plan, c0: Config, c: Config) {
    && |c.lines| == |c0.lines| && !c.poisoned && |c0.moves| <= |c.moves|
    && StopsAreSuffixes(p, c)
    && (!Stopped(c.moves, |c0.moves|) ==>
          c.lines == c0.lines && forall t :: 0 <= t < |c.threads| ==> !c.threads[t].EsAct?)
    && (Stopped(c.moves, |c0.moves|) ==> forall d :: Settled(p, c, d, c0.lines))
  }

  /** A step of an emergency stop through one of its actions. */
  lemma SettledAct(p: Plan, c: Config, t: nat, d: nat, start: seq<bool>)
    requires PlanInRange(p, |c.lines|) && |c.lines| == |start| && !c.poisoned && StopsAreSuffixes(p, c)
    requires t < |c.threads| && c.threads[t].EsAct? && c.threads[t].rest != [] && !Blocked(c, t)
    requires Settled(p, c, d, start)
    ensures var n := AdvanceThread(p, c, t, true);
      && n.threads == c.threads[t := EsAct(c.threads[t].rest[1..])]
      && Suffix(c.threads[t].rest[1..], p.estop)
      && |n.lines| == |c.lines| && !n.poisoned && n.moves == c.moves && n.guard == c.guard
      && Settled(p, n, d, start)
  {
    var rest := c.threads[t].rest;
    var i := |p.estop| - |rest|;
    assert rest[0] == p.estop[i] && rest[1..] == p.estop[i + 1..];
    var n := AdvanceThread(p, c, t, true);
    assert rest == [rest[0]] + rest[1..];
    NamesParts([rest[0]], rest[1..], d);
    assert [rest[0]][0] == rest[0];
    if d < |start| && Names(p.estop, d) {
      if Names(rest[1..], d) {
        assert n.threads[t].EsAct? && Names(n.threads[t].rest, d);
      } else if rest[0].Actuate? && rest[0].driverId == d {
        LastHere(p.estop, i);
      } else if Pending(c, d) {
        var u :| 0 <= u < |c.threads| && c.threads[u].EsAct? && Names(c.threads[u].rest, d);
        assert n.threads[u] == c.threads[u];
      }
    }
  }

  /** A step that writes nothing and lets no emergency stop with work left go. */
  lemma SettledKept(p: Plan, c: Config, n: Config, d: nat, start: seq<bool>)
    requires |c.lines| == |start| && n.lines == c.lines && |c.threads| <= |n.threads|
    requires forall t :: 0 <= t < |c.threads| && c.threads[t].EsAct? && c.threads[t].rest != [] ==> n.threads[t] == c.threads[t]
    requires Settled(p, c, d, start)
    ensures Settled(p, n, d, start)
  {
    hide AdvanceThread;
    if Pending(c, d) {
      var u :| 0 <= u < |c.threads| && c.threads[u].EsAct? && Names(c.threads[u].rest, d);
      assert n.threads[u].EsAct? && Names(n.threads[u].rest, d);
    }
  }

  /** If a step other than an emergency stop's action makes the thread an acting emergency stop, that
      stop was accepted by this step. */
  lemma AdvanceNonActing(p: Plan, c: Config, t: nat, gpio: bool)
    requires t < |c.threads| && !StopsAction(c, Advance(t, gpio))
    ensures var n := AdvanceThread(p, c, t, gpio);
      && (n.threads[t].EsAct? ==> n.threads[t].rest == p.estop && n.guard == EStopping && n.moves != c.moves)
      && (n.guard == EStopping && n.moves != c.moves ==> n.threads[t].EsAct?)
  {
    hide MayMove;
    if Remaining(c.threads[t]) != [] {
      hide TryMove;
    } else {
      hide Act;
    }
  }

  /** The same for any step of a burst. */
  lemma NonActing(p: Plan, c: Config, e: Event)
    requires !StopsAction(c, e)
    ensures var n := Next(p, c, e);
      && |c.threads| <= |n.threads|
      && (forall t :: 0 <= t < |c.threads| && c.threads[t].EsAct? && c.threads[t].rest != [] ==> n.threads[t] == c.threads[t])
      && (n.moves == c.moves || n.guard != EStopping ==>
            forall t :: 0 <= t < |n.threads| && n.threads[t].EsAct? ==> t < |c.threads| && n.threads[t] == c.threads[t])
      && (forall t :: 0 <= t < |n.threads| && n.threads[t].EsAct? ==>
            n.threads[t].rest == p.estop || (t < |c.threads| && n.threads[t] == c.threads[t]))
      && (n.guard == EStopping && n.moves != c.moves ==>
            exists t :: 0 <= t < |n.threads| && n.threads[t].EsAct? && n.threads[t].rest == p.estop)
  {
    hide AdvanceThread;
    StepThreads(p, c, e);
    if e.Advance? && e.tid < |c.threads| {
      AdvanceOnly(p, c, e.tid, e.gpio);
      AdvanceNonActing(p, c, e.tid, e.gpio);
    }
  }

  lemma StoppedSnoc(moves: seq<Move>, m: Move, from: nat)
    requires from <= |moves|
    ensures Stopped(moves + [m], from) <==> Stopped(moves, from) || m.to == EStopping
  {
    if Stopped(moves, from) {
      var i :| from <= i < |moves| && moves[i].to == EStopping;
      assert (moves + [m])[i] == moves[i];
    }
    assert (moves + [m])[|moves|] == m;
  }

  lemma BurstStep(p: Plan, c0: Config, c: Config, e: Event)
    requires PlanInRange(p, |c0.lines|) && BurstInv(p, c0, c) && StopOnly(p, c, e)
    ensures BurstInv(p, c0, Next(p, c, e))
  {
    hide AdvanceThread;
    var n, from := Next(p, c, e), |c0.moves|;
    if StopsAction(c, e) && Blocked(c, e.tid) {
      BlockedExactly(p, c, e.tid, e.gpio);
    } else if StopsAction(c, e) {
      SettledAct(p, c, e.tid, 0, c0.lines);
      forall d ensures Settled(p, n, d, c0.lines) {
        SettledAct(p, c, e.tid, d, c0.lines);
      }
    } else {
      StepMoves(p, c, e);
      NonActing(p, c, e);
      assert p.estop[0..] == p.estop;
      if n.moves != c.moves {
        StoppedSnoc(c.moves, Move(c.guard, n.guard), from);
      }
      if Stopped(c.moves, from) {
        forall d ensures Settled(p, n, d, c0.lines) {
          SettledKept(p, c, n, d, c0.lines);
        }
      } else if Stopped(n.moves, from) {
        FirstStop(p, c0, c, n);
      }
    }
  }

  /** The first accepted emergency stop has everything ahead of it. */
  lemma FirstStop(p: Plan, c0: Config, c: Config, n: Config)
    requires |c0.lines| == |c.lines| && c.lines == c0.lines && n.lines == c.lines
    requires exists t :: 0 <= t < |n.threads| && n.threads[t].EsAct? && n.threads[t].rest == p.estop
    ensures forall d :: Settled(p, n, d, c0.lines)
  {
    hide AdvanceThread;
    var t :| 0 <= t < |n.threads| && n.threads[t].EsAct? && n.threads[t].rest == p.estop;
    forall d ensures Settled(p, n, d, c0.lines) {
      if Names(p.estop, d) {
        assert Pending(n, d);
      }
    }
  }

  lemma {:induction false} BurstKeeps(p: Plan, c0: Config, es: seq<Event>)
    requires PlanInRange(p, |c0.lines|) && BurstInv(p, c0, c0) && Burst(p, c0, es)
    ensures BurstInv(p, c0, Run(p, c0, es))
    decreases |es|
  {
    hide AdvanceThread;
    if es != [] {
      BurstKeeps(p, c0, es[..|es| - 1]);
      BurstStep(p, c0, Run(p, c0, es[..|es| - 1]), es[|es| - 1]);
    }
  }

  /** Any number of overlapping emergency stops, spawned at any time and interleaved action by action,
      while nothing else changes a driver level: once none is acting any more, the drivers are exactly where one
      uninterrupted run of the shutoff sequence leaves them, or untouched if none was accepted. */
  lemma {:induction false} EStopsConfluent(p: Plan, c0: Config, es: seq<Event>)
    requires PlanInRange(p, |c0.lines|) && !c0.poisoned && Burst(p, c0, es)
    requires forall t :: 0 <= t < |c0.threads| ==> !c0.threads[t].EsAct?
    requires forall t :: 0 <= t < |Run(p, c0, es).threads| ==> !Run(p, c0, es).threads[t].EsAct?
    ensures var c := Run(p, c0, es);
      c.lines == if Stopped(c.moves, |c0.moves|) then ApplyActions(c0.lines, p.estop) else c0.lines
  {
    hide AdvanceThread;
    BurstKeeps(p, c0, es);
    var c := Run(p, c0, es);
    if Stopped(c.moves, |c0.moves|) {
      forall d | 0 <= d < |c0.lines| ensures c.lines[d] == ApplyActions(c0.lines, p.estop)[d] {
        ApplyValue(c0.lines, p.estop, d);
        assert Settled(p, c, d, c0.lines);
      }
    }
  }
}
