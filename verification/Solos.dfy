/** One thread of the protocol running by itself, undisturbed and with working pins: what the two
    procedures and the loop over a sequence do when nothing interferes. */
module Solos {
  import opened StateGuard
  import opened Protocol

  /** `k` consecutive steps of thread `t`. */
  function Solo(t: nat, k: nat): (es: seq<Event>)
    ensures |es| == k && forall i :: 0 <= i < k ==> es[i] == Advance(t, true)
  {
    seq(k, _ => Advance(t, true))
  }

  lemma SoloSplit(t: nat, j: nat, k: nat)
    ensures Solo(t, j + k) == Solo(t, j) + Solo(t, k)
  {
  }

  function ActingPhase(ign: bool, rest: seq<Action>): Phase {
    if ign then IgnAct(rest) else EsAct(rest)
  }

  function ActingAuthor(ign: bool, t: nat): Author {
    if ign then Author.Ignition(t) else EStop(t)
  }

  /** The writes a thread makes while it performs `acts`. */
  function WritesOf(author: Author, acts: seq<Action>): seq<Write> {
    if acts == [] then []
    else
      var a := acts[|acts| - 1];
      WritesOf(author, acts[..|acts| - 1]) +
      (match a case Sleep(_) => [] case Actuate(d, v) => [Write(author, d, v)])
  }

  /** One action of an acting thread, with its driver in range. */
  lemma ActsOne(p: Plan, c: Config, t: nat, ign: bool, rest: seq<Action>)
    requires t < |c.threads| && c.threads[t] == ActingPhase(ign, rest) && rest != []
    requires !c.poisoned && !c.held && (rest[0].Actuate? ==> rest[0].driverId < |c.lines|)
    ensures Next(p, c, Advance(t, true)) == match rest[0]
      case Sleep(_) => SetPhase(c, t, ActingPhase(ign, rest[1..]))
      case Actuate(d, v) =>
        SetPhase(c, t, ActingPhase(ign, rest[1..]))
          .(lines := c.lines[d := v], writes := c.writes + [Write(ActingAuthor(ign, t), d, v)])
  {
  }

  /** The configuration after thread `t` did `k` of the actions `rest`. */
  function AfterActs(c: Config, t: nat, ign: bool, rest: seq<Action>, k: nat): Config
    requires t < |c.threads| && k <= |rest|
  {
    c.(threads := c.threads[t := ActingPhase(ign, rest[k..])],
       lines := ApplyActions(c.lines, rest[..k]),
       writes := c.writes + WritesOf(ActingAuthor(ign, t), rest[..k]))
  }

  lemma AfterActsNext(p: Plan, c: Config, t: nat, ign: bool, rest: seq<Action>, k: nat)
    requires t < |c.threads| && k < |rest| && !c.poisoned && !c.held
    requires rest[k].Actuate? ==> rest[k].driverId < |c.lines|
    ensures AfterActs(c, t, ign, rest, k + 1) == Next(p, AfterActs(c, t, ign, rest, k), Advance(t, true))
  {
    var b := AfterActs(c, t, ign, rest, k);
    assert rest[k..][0] == rest[k] && rest[k..][1..] == rest[k + 1..];
    assert rest[..k + 1][..k] == rest[..k] && rest[..k + 1][k] == rest[k];
    ActsOne(p, b, t, ign, rest[k..]);
    assert b.threads[t := ActingPhase(ign, rest[k + 1..])] == c.threads[t := ActingPhase(ign, rest[k + 1..])];
    if rest[k].Actuate? {
      var w := Write(ActingAuthor(ign, t), rest[k].driverId, rest[k].value);
      assert c.writes + (WritesOf(ActingAuthor(ign, t), rest[..k]) + [w]) == b.writes + [w];
    } else {
      assert WritesOf(ActingAuthor(ign, t), rest[..k]) + [] == WritesOf(ActingAuthor(ign, t), rest[..k]);
    }
  }

  /** A thread running by itself performs the first `k` actions it has left, in order. */
  lemma {:induction false} ActsAlone(p: Plan, c: Config, t: nat, ign: bool, rest: seq<Action>, k: nat)
    requires t < |c.threads| && c.threads[t] == ActingPhase(ign, rest)
    requires !c.poisoned && !c.held && k <= |rest| && InRange(rest[..k], |c.lines|)
    ensures Run(p, c, Solo(t, k)) == AfterActs(c, t, ign, rest, k)
    decreases k
  {
    if k == 0 {
      assert Solo(t, 0) == [];
      assert rest[0..] == rest && rest[..0] == [];
      assert c.threads[t := c.threads[t]] == c.threads;
      assert c.writes + [] == c.writes;
    } else {
      assert InRange(rest[..k - 1], |c.lines|) by {
        assert forall i :: 0 <= i < k - 1 ==> rest[..k - 1][i] == rest[..k][i];
      }
      ActsAlone(p, c, t, ign, rest, k - 1);
      assert rest[..k][k - 1] == rest[k - 1];
      AfterActsNext(p, c, t, ign, rest, k - 1);
      assert Solo(t, k) == Solo(t, k - 1) + [Advance(t, true)];
      RunSnoc(p, c, Solo(t, k - 1), Advance(t, true));
    }
  }

  /** Once a thread is done, more of its steps change nothing. */
  lemma {:induction false} SoloAfterDone(p: Plan, c: Config, t: nat, k: nat)
    requires t < |c.threads| && c.threads[t].Done?
    ensures Run(p, c, Solo(t, k)) == c
    decreases k
  {
    if k > 0 {
      assert Solo(t, k)[..k - 1] == Solo(t, k - 1);
      SoloAfterDone(p, c, t, k - 1);
    } else {
      assert Solo(t, k) == [];
    }
  }

  /** A schedule of a thread alone that finishes it after `j` steps has had its effect by then. */
  lemma SoloSettles(p: Plan, c: Config, t: nat, j: nat, m: nat, b: Config)
    requires b == Run(p, c, Solo(t, j)) && t < |b.threads| && b.threads[t].Done?
    ensures Run(p, c, Solo(t, j + m)) == b
  {
    hide AdvanceThread;
    SoloSplit(t, j, m);
    RunAppend(p, c, Solo(t, j), Solo(t, m));
    SoloAfterDone(p, b, t, m);
  }

  /** Two schedules of a thread alone that both finish it have the same effect. */
  lemma SoloEnds(p: Plan, c: Config, t: nat, j: nat, k: nat)
    requires var d := Run(p, c, Solo(t, j)); t < |d.threads| && d.threads[t].Done?
    requires var d := Run(p, c, Solo(t, k)); t < |d.threads| && d.threads[t].Done?
    ensures Run(p, c, Solo(t, j)) == Run(p, c, Solo(t, k))
  {
    hide AdvanceThread;
    if j <= k {
      SoloSettles(p, c, t, j, k - j, Run(p, c, Solo(t, j)));
    } else {
      SoloSettles(p, c, t, k, j - k, Run(p, c, Solo(t, k)));
    }
  }

  /** Consecutive stretches of one thread alone. */
  lemma SoloThen(p: Plan, c: Config, t: nat, j: nat, m: nat)
    ensures Run(p, c, Solo(t, j + m)) == Run(p, Run(p, c, Solo(t, j)), Solo(t, m))
  {
    hide AdvanceThread;
    SoloSplit(t, j, m);
    RunAppend(p, c, Solo(t, j), Solo(t, m));
  }

  lemma SoloOne(p: Plan, c: Config, t: nat)
    ensures Run(p, c, Solo(t, 1)) == Next(p, c, Advance(t, true))
  {
    assert Solo(t, 1) == [] + [Advance(t, true)];
    RunSnoc(p, c, [], Advance(t, true));
  }

  /** The two moves before the actions of an ignition from Standby. */
  lemma IgnitionOpens(p: Plan, c: Config, t: nat)
    requires t < |c.threads| && c.threads[t].IgnStart? && c.guard == Standby
    ensures Run(p, c, Solo(t, 2))
         == c.(guard := Ignite, threads := c.threads[t := IgnAct(p.ignition)],
               moves := c.moves + [Move(Standby, PreIgnite), Move(PreIgnite, Ignite)])
  {
    var b := Next(p, c, Advance(t, true));
    SoloThen(p, c, t, 1, 1);
    SoloOne(p, c, t);
    SoloOne(p, b, t);
    assert c.threads[t := IgnPre][t := IgnAct(p.ignition)] == c.threads[t := IgnAct(p.ignition)];
    assert c.moves + [Move(Standby, PreIgnite), Move(PreIgnite, Ignite)]
        == c.moves + [Move(Standby, PreIgnite)] + [Move(PreIgnite, Ignite)];
  }

  /** The two moves after them. */
  lemma IgnitionCloses(p: Plan, c: Config, t: nat)
    requires t < |c.threads| && c.threads[t] == IgnAct([]) && c.guard == Ignite
    ensures Run(p, c, Solo(t, 2))
         == c.(guard := Standby, threads := c.threads[t := Done(Finished)],
               moves := c.moves + [Move(Ignite, PostIgnite), Move(PostIgnite, Standby)])
  {
    var b := Next(p, c, Advance(t, true));
    SoloThen(p, c, t, 1, 1);
    SoloOne(p, c, t);
    SoloOne(p, b, t);
    assert c.threads[t := IgnPost][t := Done(Finished)] == c.threads[t := Done(Finished)];
    assert c.moves + [Move(Ignite, PostIgnite), Move(PostIgnite, Standby)]
        == c.moves + [Move(Ignite, PostIgnite)] + [Move(PostIgnite, Standby)];
  }

  /** `|ignition| + 4` steps of an ignition thread, alone, from Standby. */
  lemma IgnitionWhole(p: Plan, c: Config, t: nat)
    requires t < |c.threads| && c.threads[t].IgnStart? && c.guard == Standby && !c.poisoned && !c.held
    requires InRange(p.ignition, |c.lines|)
    ensures Run(p, c, Solo(t, 2 + |p.ignition| + 2)) ==
            c.(threads := c.threads[t := Done(Finished)],
               lines := ApplyActions(c.lines, p.ignition),
               writes := c.writes + WritesOf(Author.Ignition(t), p.ignition),
               moves := c.moves + [Move(Standby, PreIgnite), Move(PreIgnite, Ignite)]
                                + [Move(Ignite, PostIgnite), Move(PostIgnite, Standby)])
  {
    hide Next, Run, ApplyActions, WritesOf;
    var n := |p.ignition|;
    SoloThen(p, c, t, 2 + n, 2);
    SoloThen(p, c, t, 2, n);
    IgnitionOpens(p, c, t);
    var b := Run(p, c, Solo(t, 2));
    assert p.ignition[..n] == p.ignition && p.ignition[n..] == [];
    ActsAlone(p, b, t, true, p.ignition, n);
    var d := Run(p, b, Solo(t, n));
    IgnitionCloses(p, d, t);
    assert d.threads[t := Done(Finished)] == c.threads[t := Done(Finished)];
  }

  /** An undisturbed ignition from Standby: any schedule of that thread alone that has finished it
      had exactly the effect of its `|ignition| + 4` steps. */
  lemma IgnitionAlone(p: Plan, c: Config, t: nat, k: nat)
    requires t < |c.threads| && c.threads[t].IgnStart? && c.guard == Standby && !c.poisoned && !c.held
    requires InRange(p.ignition, |c.lines|)
    requires var d := Run(p, c, Solo(t, k)); t < |d.threads| && d.threads[t].Done?
    ensures Run(p, c, Solo(t, k)) ==
            c.(threads := c.threads[t := Done(Finished)],
               lines := ApplyActions(c.lines, p.ignition),
               writes := c.writes + WritesOf(Author.Ignition(t), p.ignition),
               moves := c.moves + [Move(Standby, PreIgnite), Move(PreIgnite, Ignite)]
                                + [Move(Ignite, PostIgnite), Move(PostIgnite, Standby)])
  {
    hide AdvanceThread;
    IgnitionWhole(p, c, t);
    SoloEnds(p, c, t, 2 + |p.ignition| + 2, k);
  }

  lemma EStopOpens(p: Plan, c: Config, t: nat)
    requires t < |c.threads| && c.threads[t].EsStart? && c.guard != Quit
    ensures Run(p, c, Solo(t, 1))
         == c.(guard := EStopping, threads := c.threads[t := EsAct(p.estop)], moves := c.moves + [Move(c.guard, EStopping)])
  {
    SoloOne(p, c, t);
  }

  lemma EStopCloses(p: Plan, c: Config, t: nat)
    requires t < |c.threads| && c.threads[t] == EsAct([]) && c.guard == EStopping
    ensures Run(p, c, Solo(t, 1))
         == c.(guard := Standby, threads := c.threads[t := Done(Finished)], moves := c.moves + [Move(EStopping, Standby)])
  {
    SoloOne(p, c, t);
  }

  lemma {:induction false} EStopWhole(p: Plan, c: Config, t: nat)
    requires t < |c.threads| && c.threads[t].EsStart? && c.guard != Quit && !c.poisoned && !c.held
    requires InRange(p.estop, |c.lines|)
    ensures Run(p, c, Solo(t, 1 + |p.estop| + 1)) ==
            c.(guard := Standby,
               threads := c.threads[t := Done(Finished)],
               lines := ApplyActions(c.lines, p.estop),
               writes := c.writes + WritesOf(EStop(t), p.estop),
               moves := c.moves + [Move(c.guard, EStopping), Move(EStopping, Standby)])
  {
    hide Next, Run, ApplyActions, WritesOf;
    var n := |p.estop|;
    SoloThen(p, c, t, 1 + n, 1);
    SoloThen(p, c, t, 1, n);
    EStopOpens(p, c, t);
    var b := Run(p, c, Solo(t, 1));
    assert p.estop[..n] == p.estop && p.estop[n..] == [];
    ActsAlone(p, b, t, false, p.estop, n);
    var d := Run(p, b, Solo(t, n));
    EStopCloses(p, d, t);
    assert d.threads[t := Done(Finished)] == c.threads[t := Done(Finished)];
    assert c.moves + [Move(c.guard, EStopping)] + [Move(EStopping, Standby)]
        == c.moves + [Move(c.guard, EStopping), Move(EStopping, Standby)];
  }

  /** An undisturbed emergency stop, from any state but Quit. */
  lemma EStopAlone(p: Plan, c: Config, t: nat, k: nat)
    requires t < |c.threads| && c.threads[t].EsStart? && c.guard != Quit && !c.poisoned && !c.held
    requires InRange(p.estop, |c.lines|)
    requires var d := Run(p, c, Solo(t, k)); t < |d.threads| && d.threads[t].Done?
    ensures Run(p, c, Solo(t, k)) ==
            c.(guard := Standby,
               threads := c.threads[t := Done(Finished)],
               lines := ApplyActions(c.lines, p.estop),
               writes := c.writes + WritesOf(EStop(t), p.estop),
               moves := c.moves + [Move(c.guard, EStopping), Move(EStopping, Standby)])
  {
    hide AdvanceThread;
    EStopWhole(p, c, t);
    SoloEnds(p, c, t, 1 + |p.estop| + 1, k);
  }
}
