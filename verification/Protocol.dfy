/** The concurrent ignition / emergency-stop protocol (src/execution.rs, src/state.rs and the spawn
    points in src/server.rs and src/data.rs) as a transition system.

    Any number of ignition and emergency-stop threads race on one guard and one table of driver
    lines. A step of the system is one atomic operation of one thread: an attempted guard move, one
    driver write under the lock, or one sleep. The status listener takes the same lock and keeps it
    while it reports to the dashboard; a driver write cannot happen in the meantime. Nothing restricts
    the order of steps. */
module Protocol {
  import opened StateGuard

  /** One step of an ignition or shutoff sequence. */
  datatype Action = Actuate(driverId: nat, value: bool) | Sleep(duration: nat)

  /** The two sequences of the configuration. */
  datatype Plan = Plan(ignition: seq<Action>, estop: seq<Action>)

  /** How a procedure ended: all the way, with a refused guard move, with an `Err(Poison)` from the
      driver lines, or by a panic (an index past the driver table). */
  datatype Outcome = Finished | Rejected(error: GuardError) | Faulted | Panicked

  /** Where a thread is. `IgnAct` and `EsAct` carry the actions not performed yet. */
  datatype Phase =
    | IgnStart
    | IgnPre
    | IgnAct(rest: seq<Action>)
    | IgnPost
    | EsStart
    | EsAct(rest: seq<Action>)
    | Done(outcome: Outcome)

  datatype Author = Ignition(tid: nat) | EStop(tid: nat) | Operator

  datatype Write = Write(author: Author, driver: nat, value: bool)

  datatype Move = Move(from: State, to: State)

  /** The whole system: the guard, the driver levels, whether the driver mutex is poisoned, whether the
      status listener holds it, the threads in spawn order (an index is a thread id), and the history of successful driver writes
      and accepted guard moves. */
  datatype Config = Config(
    guard: State,
    lines: seq<bool>,
    poisoned: bool,
    held: bool,
    threads: seq<Phase>,
    writes: seq<Write>,
    moves: seq<Move>)

  /** What can happen next. `gpio` says whether the pin write of that step, if it makes one, works.
      `Hold` and `Release` are the status listener's. */
  datatype Event =
    | SpawnIgnition
    | SpawnEStop
    | Advance(tid: nat, gpio: bool)
    | Manual(driverId: nat, value: bool, gpio: bool)
    | RequestQuit
    | Hold
    | Release

  function Init(lines: seq<bool>): Config {
    Config(Standby, lines, false, false, [], [], [])
  }

  // ---------------------------------------------------------------------------------------------
  // Steps and runs
  // ---------------------------------------------------------------------------------------------

  function SetPhase(c: Config, t: nat, ph: Phase): Config
    requires t < |c.threads|
  {
    c.(threads := c.threads[t := ph])
  }

  /** Thread `t` asks for state `s` and continues at `ph` if it gets it; otherwise it returns. */
  function TryMove(c: Config, t: nat, s: State, ph: Phase): Config
    requires t < |c.threads|
  {
    if MayMove(c.guard, s) then
      SetPhase(c, t, ph).(guard := s, moves := c.moves + [Move(c.guard, s)])
    else
      SetPhase(c, t, Done(Rejected(IllegalTransition(c.guard, s))))
  }

  /** Thread `t` performs one action of its sequence. The guard is not consulted. A thread that needs
      the lock while it is held waits: it takes no step. */
  function Act(c: Config, t: nat, a: Action, gpio: bool, author: Author, ph: Phase): Config
    requires t < |c.threads|
  {
    match a
    case Sleep(_) => SetPhase(c, t, ph)
    case Actuate(d, v) =>
      if c.held then c
      else if c.poisoned then SetPhase(c, t, Done(Faulted))
      else if d >= |c.lines| then SetPhase(c, t, Done(Panicked)).(poisoned := true)
      else if !gpio then SetPhase(c, t, Done(Faulted))
      else SetPhase(c, t, ph).(lines := c.lines[d := v], writes := c.writes + [Write(author, d, v)])
  }

  /** An action leaves the guard alone; its thread goes on, ends, or waits. */
  lemma ActFrame(c: Config, t: nat, a: Action, gpio: bool, author: Author, ph: Phase)
    requires t < |c.threads|
    ensures var d := Act(c, t, a, gpio, author, ph);
      && d.guard == c.guard && d.moves == c.moves
      && d.threads == c.threads[t := d.threads[t]]
      && (d.threads[t] == ph || d.threads[t].Done? || (d == c && c.held && a.Actuate?))
  {
  }

  /** An attempted move touches nothing but the guard, its history and the thread that makes it. */
  lemma MoveFrame(c: Config, t: nat, s: State, ph: Phase)
    requires t < |c.threads|
    ensures var d := TryMove(c, t, s, ph);
      && d.lines == c.lines && d.writes == c.writes && d.poisoned == c.poisoned && d.held == c.held
      && d.threads == c.threads[t := d.threads[t]]
      && (MayMove(c.guard, s) ==> d.guard == s && d.moves == c.moves + [Move(c.guard, s)] && d.threads[t] == ph)
      && (!MayMove(c.guard, s) ==> d.guard == c.guard && d.moves == c.moves && d.threads[t].Done?)
  {
    hide MayMove;
  }

  function AdvanceThread(p: Plan, c: Config, t: nat, gpio: bool): Config
    requires t < |c.threads|
  {
    match c.threads[t]
    case IgnStart => TryMove(c, t, PreIgnite, IgnPre)
    case IgnPre => TryMove(c, t, Ignite, IgnAct(p.ignition))
    case IgnAct(rest) =>
      if rest == [] then TryMove(c, t, PostIgnite, IgnPost)
      else Act(c, t, rest[0], gpio, Ignition(t), IgnAct(rest[1..]))
    case IgnPost => TryMove(c, t, Standby, Done(Finished))
    case EsStart => TryMove(c, t, EStopping, EsAct(p.estop))
    case EsAct(rest) =>
      if rest == [] then TryMove(c, t, Standby, Done(Finished))
      else Act(c, t, rest[0], gpio, EStop(t), EsAct(rest[1..]))
    case Done(_) => c
  }

  /** A manual actuation runs inline in the client thread. Its bounds check lets the id equal to the
      number of drivers through, and that id then panics inside the lock. */
  function ManualActuate(c: Config, d: nat, v: bool, gpio: bool): Config {
    if d > |c.lines| || c.held || c.poisoned then c
    else if d == |c.lines| then c.(poisoned := true)
    else if !gpio then c
    else c.(lines := c.lines[d := v], writes := c.writes + [Write(Operator, d, v)])
  }

  function Next(p: Plan, c: Config, e: Event): Config {
    match e
    case SpawnIgnition => c.(threads := c.threads + [IgnStart])
    case SpawnEStop => c.(threads := c.threads + [EsStart])
    case Advance(t, gpio) => if t < |c.threads| then AdvanceThread(p, c, t, gpio) else c
    case Manual(d, v, gpio) => ManualActuate(c, d, v, gpio)
    case RequestQuit =>
      if MayMove(c.guard, Quit) then c.(guard := Quit, moves := c.moves + [Move(c.guard, Quit)]) else c
    case Hold => if c.poisoned then c else c.(held := true)
    case Release => c.(held := false)
  }

  /** The configuration after the events `es`, first to last. */
  function Run(p: Plan, c: Config, es: seq<Event>): Config {
    if es == [] then c else Next(p, Run(p, c, es[..|es| - 1]), es[|es| - 1])
  }

  lemma {:induction false} RunAppend(p: Plan, c: Config, a: seq<Event>, b: seq<Event>)
    ensures Run(p, c, a + b) == Run(p, Run(p, c, a), b)
    decreases |b|
  {
    hide AdvanceThread;
    if b == [] {
      assert a + b == a;
    } else {
      assert (a + b)[..|a + b| - 1] == a + b[..|b| - 1];
      RunAppend(p, c, a, b[..|b| - 1]);
    }
  }

  lemma RunSnoc(p: Plan, c: Config, es: seq<Event>, e: Event)
    ensures Run(p, c, es + [e]) == Next(p, Run(p, c, es), e)
  {
    assert (es + [e])[..|es + [e]| - 1] == es;
  }

  lemma RunCons(p: Plan, c: Config, e: Event, es: seq<Event>)
    ensures Run(p, c, [e] + es) == Run(p, Next(p, c, e), es)
  {
    hide AdvanceThread;
    RunAppend(p, c, [e], es);
    assert Run(p, c, [e]) == Next(p, c, e) by { RunSnoc(p, c, [], e); assert [] + [e] == [e]; }
  }

  lemma RunTwo(p: Plan, c: Config, a: Event, b: Event)
    ensures Run(p, c, [a, b]) == Next(p, Next(p, c, a), b)
  {
    hide AdvanceThread;
    RunCons(p, c, a, [b]);
    RunCons(p, Next(p, c, a), b, []);
    assert [a, b] == [a] + [b] && [b] == [b] + [];
  }

  /** The guard's state and its history change together, by one legal move or not at all. */
  lemma {:induction false} StepMoves(p: Plan, c: Config, e: Event)
    ensures var d := Next(p, c, e);
      || (d.guard == c.guard && d.moves == c.moves)
      || (MayMove(c.guard, d.guard) && d.moves == c.moves + [Move(c.guard, d.guard)])
  {
    hide AdvanceThread;
    if e.Advance? && e.tid < |c.threads| {
      AdvanceOnly(p, c, e.tid, e.gpio);
    }
  }

  /** A step adds at most one write; a thread's write is the actuation it had next. */
  lemma StepWrites(p: Plan, c: Config, e: Event)
    ensures var d := Next(p, c, e);
      || d.writes == c.writes
      || (exists w :: d.writes == c.writes + [w] && WriteOf(c, e, w))
  {
    var d := Next(p, c, e);
    if d.writes != c.writes {
      assert WriteOf(c, e, d.writes[|c.writes|]);
    }
  }

  /** `w` is what event `e` writes at `c`. */
  predicate WriteOf(c: Config, e: Event, w: Write) {
    match w.author
    case Operator => e.Manual?
    case Ignition(t) =>
      && e.Advance? && e.tid == t < |c.threads|
      && c.threads[t].IgnAct? && c.threads[t].rest != [] && c.threads[t].rest[0] == Actuate(w.driver, w.value)
    case EStop(t) =>
      && e.Advance? && e.tid == t < |c.threads|
      && c.threads[t].EsAct? && c.threads[t].rest != [] && c.threads[t].rest[0] == Actuate(w.driver, w.value)
  }

  /** A step changes no thread but the one it advances. */
  lemma StepThreads(p: Plan, c: Config, e: Event)
    ensures var d := Next(p, c, e);
      && |c.threads| <= |d.threads|
      && (forall t :: 0 <= t < |c.threads| && !(e.Advance? && e.tid == t) ==> d.threads[t] == c.threads[t])
  {
    hide AdvanceThread;
    if e.Advance? && e.tid < |c.threads| {
      AdvanceOnly(p, c, e.tid, e.gpio);
    }
  }

  lemma AdvanceOnly(p: Plan, c: Config, t: nat, gpio: bool)
    requires t < |c.threads|
    ensures var d := AdvanceThread(p, c, t, gpio);
      && |d.threads| == |c.threads| && d.threads == c.threads[t := d.threads[t]]
      && (|| (d.guard == c.guard && d.moves == c.moves)
          || (MayMove(c.guard, d.guard) && d.moves == c.moves + [Move(c.guard, d.guard)]))
  {
    hide MayMove, Act, TryMove;
    match c.threads[t]
    case IgnStart => MoveFrame(c, t, PreIgnite, IgnPre);
    case IgnPre => MoveFrame(c, t, Ignite, IgnAct(p.ignition));
    case IgnAct(rest) =>
      if rest == [] {
        MoveFrame(c, t, PostIgnite, IgnPost);
      } else {
        ActFrame(c, t, rest[0], gpio, Author.Ignition(t), IgnAct(rest[1..]));
      }
    case IgnPost => MoveFrame(c, t, Standby, Done(Finished));
    case EsStart => MoveFrame(c, t, EStopping, EsAct(p.estop));
    case EsAct(rest) =>
      if rest == [] {
        MoveFrame(c, t, Standby, Done(Finished));
      } else {
        ActFrame(c, t, rest[0], gpio, EStop(t), EsAct(rest[1..]));
      }
    case Done(_) =>
  }

  /** The driver levels after the actuations of a sequence, performed without interruption. */
  function ApplyActions(lines: seq<bool>, acts: seq<Action>): (r: seq<bool>)
    ensures |r| == |lines|
  {
    if acts == [] then lines
    else
      var before := ApplyActions(lines, acts[..|acts| - 1]);
      match acts[|acts| - 1]
      case Sleep(_) => before
      case Actuate(d, v) => if d < |before| then before[d := v] else before
  }

  /** A sequence names only drivers that exist. */
  predicate InRange(acts: seq<Action>, n: nat) {
    forall i :: 0 <= i < |acts| && acts[i].Actuate? ==> acts[i].driverId < n
  }

  predicate Live(ph: Phase) {
    !ph.Done?
  }

  /** No thread has anything left to do. */
  predicate Quiet(c: Config) {
    forall t :: 0 <= t < |c.threads| ==> !Live(c.threads[t])
  }

  /** An event in which no pin write fails and no manual command names the one id past the table. */
  predicate Benign(e: Event, n: nat) {
    match e
    case Advance(_, gpio) => gpio
    case Manual(d, _, _) => d != n
    case _ => true
  }

  predicate AllBenign(es: seq<Event>, n: nat) {
    forall i :: 0 <= i < |es| ==> Benign(es[i], n)
  }
}
