/** How many threads can be in the same phase of an ignition at once. The guard counts entries and
    exits; a thread that holds a phase paid for it with an entry. No assumption is made on faults,
    on the sequences or on the schedule. */
module Occupancy {
  import opened StateGuard
  import opened Protocol
  import opened Solos
  import opened Liveness

  /** Accepted moves into `s`. */
  function Entries(moves: seq<Move>, s: State): nat {
    if moves == [] then 0
    else Entries(moves[..|moves| - 1], s) + if moves[|moves| - 1].to == s then 1 else 0
  }

  /** Accepted moves out of `s`. */
  function Exits(moves: seq<Move>, s: State): nat {
    if moves == [] then 0
    else Exits(moves[..|moves| - 1], s) + if moves[|moves| - 1].from == s then 1 else 0
  }

  /** Accepted moves from `s` to `to`. */
  function Jumps(moves: seq<Move>, s: State, to: State): nat {
    if moves == [] then 0
    else Jumps(moves[..|moves| - 1], s, to) + if moves[|moves| - 1] == Move(s, to) then 1 else 0
  }

  function Indicator(b: bool): nat {
    if b then 1 else 0
  }

  /** The history is a walk of the guard from Standby to where it is now. */
  predicate Walked(moves: seq<Move>, guard: State) {
    && (moves == [] ==> guard == Standby)
    && (moves != [] ==> moves[0].from == Standby && moves[|moves| - 1].to == guard)
    && (forall i :: 0 <= i < |moves| ==> MayMove(moves[i].from, moves[i].to))
    && (forall i :: 0 <= i < |moves| - 1 ==> moves[i].to == moves[i + 1].from)
  }

  lemma {:induction false} RunWalks(p: Plan, lines: seq<bool>, es: seq<Event>)
    ensures Walked(Run(p, Init(lines), es).moves, Run(p, Init(lines), es).guard)
    decreases |es|
  {
    hide AdvanceThread;
    if es != [] {
      RunWalks(p, lines, es[..|es| - 1]);
      StepMoves(p, Run(p, Init(lines), es[..|es| - 1]), es[|es| - 1]);
    }
  }

  /** Entries and exits of a state balance up to the visit in progress. */
  lemma {:induction false} FlowBalance(moves: seq<Move>, guard: State, s: State)
    requires Walked(moves, guard)
    ensures Indicator(s == Standby) + Entries(moves, s) == Exits(moves, s) + Indicator(guard == s)
    decreases |moves|
  {
    if moves != [] {
      var last := |moves| - 1;
      assert last > 0 ==> moves[last - 1].to == moves[last].from;
      FlowBalance(moves[..last], moves[last].from, s);
    }
  }

  /** Ignite is left only for PostIgnite or EStopping, PreIgnite only for Ignite or EStopping, and
      PostIgnite and Ignite are entered only from their predecessors. */
  lemma {:induction false} ExitsSplit(moves: seq<Move>, guard: State)
    requires Walked(moves, guard)
    ensures Exits(moves, Ignite) == Entries(moves, PostIgnite) + Jumps(moves, Ignite, EStopping)
    ensures Exits(moves, PreIgnite) == Entries(moves, Ignite) + Jumps(moves, PreIgnite, EStopping)
    decreases |moves|
  {
    if moves != [] {
      var last := |moves| - 1;
      assert last > 0 ==> moves[last - 1].to == moves[last].from;
      ExitsSplit(moves[..last], moves[last].from);
      assert MayMove(moves[last].from, moves[last].to);
    }
  }

  // ---------------------------------------------------------------------------------------------
  // Counting threads
  // ---------------------------------------------------------------------------------------------

  datatype Kind = Waiting | Acting

  predicate IsKind(ph: Phase, k: Kind) {
    match k
    case Waiting => ph.IgnPre?
    case Acting => ph.IgnAct?
  }

  function Count(threads: seq<Phase>, k: Kind): nat {
    if threads == [] then 0
    else Count(threads[..|threads| - 1], k) + Indicator(IsKind(threads[|threads| - 1], k))
  }

  lemma {:induction false} CountUpdate(threads: seq<Phase>, t: nat, ph: Phase, k: Kind)
    requires t < |threads|
    ensures Count(threads[t := ph], k) == Count(threads, k) - Indicator(IsKind(threads[t], k)) + Indicator(IsKind(ph, k))
    decreases |threads|
  {
    var last := |threads| - 1;
    if t == last {
      assert threads[t := ph][..last] == threads[..last];
    } else {
      assert threads[t := ph][..last] == threads[..last][t := ph];
      CountUpdate(threads[..last], t, ph, k);
    }
  }

  lemma CountSnoc(threads: seq<Phase>, ph: Phase, k: Kind)
    ensures Count(threads + [ph], k) == Count(threads, k) + Indicator(IsKind(ph, k))
  {
    assert (threads + [ph])[..|threads + [ph]| - 1] == threads;
  }

  lemma EntriesSnoc(moves: seq<Move>, m: Move, s: State)
    ensures Entries(moves + [m], s) == Entries(moves, s) + Indicator(m.to == s)
  {
    assert (moves + [m])[..|moves + [m]| - 1] == moves;
  }

  lemma JumpsSnoc(moves: seq<Move>, m: Move, s: State, to: State)
    ensures Jumps(moves + [m], s, to) == Jumps(moves, s, to) + Indicator(m == Move(s, to))
  {
    assert (moves + [m])[..|moves + [m]| - 1] == moves;
  }

  /** Threads in a phase are covered by entries into its state that no later entry has used up. */
  predicate Covered(c: Config) {
    && Count(c.threads, Acting) + Entries(c.moves, PostIgnite) <= Entries(c.moves, Ignite)
    && Count(c.threads, Waiting) + Entries(c.moves, Ignite) <= Entries(c.moves, PreIgnite)
  }

  /** A thread enters a counted phase only by the move that counts it. */
  lemma AdvanceEntry(p: Plan, c: Config, t: nat, gpio: bool)
    requires t < |c.threads|
    ensures var d := AdvanceThread(p, c, t, gpio); var ph, ph' := c.threads[t], d.threads[t];
      && d.threads == c.threads[t := ph']
      && (d.moves == c.moves ==> (ph'.IgnPre? ==> ph.IgnPre?) && (ph'.IgnAct? ==> ph.IgnAct?))
      && (d.moves != c.moves ==>
            && d.moves == c.moves + [Move(c.guard, d.guard)]
            && (d.guard == PreIgnite <==> ph'.IgnPre?)
            && (d.guard == Ignite <==> ph'.IgnAct?)
            && (ph'.IgnAct? ==> ph.IgnPre?)
            && (d.guard == PostIgnite ==> ph.IgnAct?))
  {
    hide MayMove, Act, TryMove;
    match c.threads[t]
    case IgnStart => MoveFrame(c, t, PreIgnite, IgnPre);
    case IgnPre => MoveFrame(c, t, Ignite, IgnAct(p.ignition));
    case IgnAct(rest) =>
      if rest == [] {
        MoveFrame(c, t, PostIgnite, IgnPost);
      } else {
        ActFrame(c, t, rest[0], gpio, Author.Ignition(t), IgnAct(rest[1..]));
      }
    case IgnPost => MoveFrame(c, t, Standby, Done(Finished));
    case EsStart => MoveFrame(c, t, EStopping, EsAct(p.estop));
    case EsAct(rest) =>
      if rest == [] {
        MoveFrame(c, t, Standby, Done(Finished));
      } else {
        ActFrame(c, t, rest[0], gpio, EStop(t), EsAct(rest[1..]));
      }
    case Done(_) =>
  }

  lemma CoveredAdvance(p: Plan, c: Config, t: nat, gpio: bool)
    requires t < |c.threads| && Covered(c)
    ensures Covered(AdvanceThread(p, c, t, gpio))
  {
    hide AdvanceThread;
    AdvanceEntry(p, c, t, gpio);
    var d := AdvanceThread(p, c, t, gpio);
    CountUpdate(c.threads, t, d.threads[t], Acting);
    CountUpdate(c.threads, t, d.threads[t], Waiting);
    if d.moves != c.moves {
      var m := Move(c.guard, d.guard);
      EntriesSnoc(c.moves, m, PreIgnite);
      EntriesSnoc(c.moves, m, Ignite);
      EntriesSnoc(c.moves, m, PostIgnite);
    }
  }

  lemma CoveredStep(p: Plan, c: Config, e: Event)
    requires Covered(c)
    ensures Covered(Next(p, c, e))
  {
    hide AdvanceThread, Count, Entries;
    match e
    case SpawnIgnition => CountSnoc(c.threads, IgnStart, Acting); CountSnoc(c.threads, IgnStart, Waiting);
    case SpawnEStop => CountSnoc(c.threads, EsStart, Acting); CountSnoc(c.threads, EsStart, Waiting);
    case Advance(t, gpio) => if t < |c.threads| { CoveredAdvance(p, c, t, gpio); }
    case Manual(_, _, _) =>
    case RequestQuit => CoveredQuit(p, c);
    case Hold =>
    case Release =>
  }

  lemma CoveredQuit(p: Plan, c: Config)
    requires Covered(c)
    ensures Covered(Next(p, c, RequestQuit))
  {
    hide AdvanceThread, Count, Entries;
    var m := Move(c.guard, Quit);
    EntriesSnoc(c.moves, m, PreIgnite);
    EntriesSnoc(c.moves, m, Ignite);
    EntriesSnoc(c.moves, m, PostIgnite);
  }

  lemma {:induction false} RunCovered(p: Plan, lines: seq<bool>, es: seq<Event>)
    ensures Covered(Run(p, Init(lines), es))
    decreases |es|
  {
    hide AdvanceThread;
    if es != [] {
      RunCovered(p, lines, es[..|es| - 1]);
      CoveredStep(p, Run(p, Init(lines), es[..|es| - 1]), es[|es| - 1]);
    }
  }

  /** Flow conservation, and what it says about threads: beyond the one the guard vouches for, there
      is at most one acting thread for every emergency stop accepted out of Ignite, and at most one
      waiting thread for every emergency stop accepted out of PreIgnite. */
  lemma {:induction false} OccupancyBound(p: Plan, lines: seq<bool>, es: seq<Event>)
    ensures var c := Run(p, Init(lines), es);
      && Entries(c.moves, Ignite)
         == Entries(c.moves, PostIgnite) + Jumps(c.moves, Ignite, EStopping)
            + Indicator(c.guard == Ignite)
      && Entries(c.moves, PreIgnite)
         == Entries(c.moves, Ignite) + Jumps(c.moves, PreIgnite, EStopping)
            + Indicator(c.guard == PreIgnite)
      && Count(c.threads, Acting)
         <= Indicator(c.guard == Ignite) + Jumps(c.moves, Ignite, EStopping)
      && Count(c.threads, Waiting)
         <= Indicator(c.guard == PreIgnite) + Jumps(c.moves, PreIgnite, EStopping)
  {
    var c := Run(p, Init(lines), es);
    RunWalks(p, lines, es);
    FlowBalance(c.moves, c.guard, Ignite);
    FlowBalance(c.moves, c.guard, PreIgnite);
    ExitsSplit(c.moves, c.guard);
    RunCovered(p, lines, es);
  }

  // ---------------------------------------------------------------------------------------------
  // The bound is attained
  // ---------------------------------------------------------------------------------------------

  /** A fresh ignition thread, run alone up to its first action. */
  function IgniteEvents(t: nat): seq<Event> {
    [SpawnIgnition] + Solo(t, 2)
  }

  /** A fresh emergency-stop thread, run alone to its end. */
  function StopEvents(p: Plan, t: nat): seq<Event> {
    [SpawnEStop] + Solo(t, 1 + |p.estop| + 1)
  }

  lemma {:induction false} IgniteRun(p: Plan, c: Config)
    requires c.guard == Standby
    ensures Run(p, c, IgniteEvents(|c.threads|))
         == c.(guard := Ignite, threads := c.threads + [IgnAct(p.ignition)],
               moves := c.moves + [Move(Standby, PreIgnite), Move(PreIgnite, Ignite)])
  {
    hide AdvanceThread;
    var t := |c.threads|;
    var b := Next(p, c, SpawnIgnition);
    RunCons(p, c, SpawnIgnition, Solo(t, 2));
    IgnitionOpens(p, b, t);
    assert b.threads[t := IgnAct(p.ignition)] == c.threads + [IgnAct(p.ignition)];
  }

  lemma {:induction false} StopRun(p: Plan, c: Config)
    requires c.guard != Quit && !c.poisoned && !c.held && InRange(p.estop, |c.lines|)
    ensures Run(p, c, StopEvents(p, |c.threads|))
         == c.(guard := Standby, threads := c.threads + [Done(Finished)],
               lines := ApplyActions(c.lines, p.estop),
               writes := c.writes + WritesOf(EStop(|c.threads|), p.estop),
               moves := c.moves + [Move(c.guard, EStopping), Move(EStopping, Standby)])
  {
    hide AdvanceThread;
    var t := |c.threads|;
    var b := Next(p, c, SpawnEStop);
    RunCons(p, c, SpawnEStop, Solo(t, 1 + |p.estop| + 1));
    EStopWhole(p, b, t);
    assert b.threads[t := Done(Finished)] == c.threads + [Done(Finished)];
  }

  /** A fresh ignition thread, run alone until it is in its wait or up to its first action. */
  function StartEvents(k: Kind, t: nat): seq<Event> {
    match k
    case Waiting => [SpawnIgnition] + Solo(t, 1)
    case Acting => IgniteEvents(t)
  }

  /** The guard state the bound on threads of a kind is about. */
  function StateOf(k: Kind): State {
    match k
    case Waiting => PreIgnite
    case Acting => Ignite
  }

  lemma WaitRun(p: Plan, c: Config)
    requires c.guard == Standby
    ensures Run(p, c, StartEvents(Waiting, |c.threads|))
         == c.(guard := PreIgnite, threads := c.threads + [IgnPre], moves := c.moves + [Move(Standby, PreIgnite)])
  {
    hide AdvanceThread;
    var t := |c.threads|;
    var b := Next(p, c, SpawnIgnition);
    RunCons(p, c, SpawnIgnition, Solo(t, 1));
    SoloOne(p, b, t);
    assert Next(p, b, Advance(t, true)) == AdvanceThread(p, b, t, true);
    WaitStep(p, b, t);
    assert b.threads[t := IgnPre] == c.threads + [IgnPre];
  }

  lemma WaitStep(p: Plan, c: Config, t: nat)
    requires c.guard == Standby && t < |c.threads| && c.threads[t].IgnStart?
    ensures AdvanceThread(p, c, t, true)
         == c.(guard := PreIgnite, threads := c.threads[t := IgnPre], moves := c.moves + [Move(Standby, PreIgnite)])
  {
  }

  /** Starting an ignition from Standby brings the guard to the state and one more thread into it. */
  lemma StartRun(p: Plan, c: Config, k: Kind)
    requires c.guard == Standby
    ensures var d := Run(p, c, StartEvents(k, |c.threads|));
      && d.guard == StateOf(k) && d.poisoned == c.poisoned && d.held == c.held && d.lines == c.lines
      && Jumps(d.moves, StateOf(k), EStopping) == Jumps(c.moves, StateOf(k), EStopping)
      && Count(d.threads, k) == Count(c.threads, k) + 1
  {
    match k
    case Waiting =>
      WaitRun(p, c);
      CountSnoc(c.threads, IgnPre, k);
      JumpsSnoc(c.moves, Move(Standby, PreIgnite), PreIgnite, EStopping);
    case Acting =>
      IgniteRun(p, c);
      CountSnoc(c.threads, IgnAct(p.ignition), k);
      TwoJumps(c.moves, Move(Standby, PreIgnite), Move(PreIgnite, Ignite), Ignite);
  }

  /** From that state: stop, then start again. One more thread is in it, one more stop was accepted. */
  lemma StopAndStart(p: Plan, c: Config, k: Kind) returns (es: seq<Event>)
    requires c.guard == StateOf(k) && !c.poisoned && !c.held && InRange(p.estop, |c.lines|)
    ensures AllBenign(es, |c.lines|)
    ensures var d := Run(p, c, es);
      && d.guard == StateOf(k) && !d.poisoned && !d.held && |d.lines| == |c.lines|
      && Jumps(d.moves, StateOf(k), EStopping) == Jumps(c.moves, StateOf(k), EStopping) + 1
      && Count(d.threads, k) == Count(c.threads, k) + 1
  {
    hide AdvanceThread, Next, Run, Count, Jumps, ApplyActions;
    var stop := StopEvents(p, |c.threads|);
    StopRun(p, c);
    var b := Run(p, c, stop);
    var again := StartEvents(k, |b.threads|);
    StartRun(p, b, k);
    RunAppend(p, c, stop, again);
    es := stop + again;
    CountSnoc(c.threads, Done(Finished), k);
    TwoJumps(c.moves, Move(StateOf(k), EStopping), Move(EStopping, Standby), StateOf(k));
  }

  /** An emergency stop does not end the ignition it interrupts: for every `n` there is a fault-free run
      with `n` of them accepted out of Ignite and `n + 1` threads acting the ignition sequence, and one
      with `n` of them accepted out of PreIgnite and `n + 1` threads in their wait. */
  lemma {:induction false} OccupancyAttained(p: Plan, lines: seq<bool>, k: Kind, n: nat) returns (es: seq<Event>)
    requires PlanInRange(p, |lines|)
    ensures AllBenign(es, |lines|)
    ensures var c := Run(p, Init(lines), es);
      && c.guard == StateOf(k) && !c.poisoned && !c.held && |c.lines| == |lines|
      && Jumps(c.moves, StateOf(k), EStopping) == n
      && Count(c.threads, k) == n + 1
    decreases n
  {
    hide AdvanceThread;
    if n == 0 {
      es := StartEvents(k, 0);
      StartRun(p, Init(lines), k);
    } else {
      var before := OccupancyAttained(p, lines, k, n - 1);
      var round := StopAndStart(p, Run(p, Init(lines), before), k);
      RunAppend(p, Init(lines), before, round);
      es := before + round;
    }
  }

  lemma TwoJumps(moves: seq<Move>, a: Move, b: Move, s: State)
    ensures Jumps(moves + [a, b], s, EStopping)
         == Jumps(moves, s, EStopping) + Indicator(a == Move(s, EStopping)) + Indicator(b == Move(s, EStopping))
  {
    JumpsSnoc(moves, a, s, EStopping);
    JumpsSnoc(moves + [a], b, s, EStopping);
    assert moves + [a, b] == moves + [a] + [b];
  }
}
