/** Without an accepted emergency stop ignitions are serial, and what they write is whole copies of
    the ignition sequence and at most one unfinished copy. Pin faults and panics are allowed. */
module Serial {
  import opened StateGuard
  import opened Protocol
  import opened Occupancy

  predicate NoneTo(moves: seq<Move>, s: State) {
    forall i :: 0 <= i < |moves| ==> moves[i].to != s
  }

  /** The thread has made its first move and has not returned. */
  predicate PastStart(ph: Phase) {
    ph.IgnPre? || ph.IgnAct? || ph.IgnPost? || ph.EsAct?
  }

  /** The phase a thread past its start is in agrees with the guard. */
  predicate AgreesWith(ph: Phase, guard: State) {
    && (ph.IgnPre? ==> guard == PreIgnite)
    && (ph.IgnAct? ==> guard == Ignite)
    && (ph.IgnPost? ==> guard == PostIgnite)
    && !ph.EsAct?
  }

  type Effect = (nat, bool)

  /** The driver levels a sequence asks for, in order. */
  function Effects(acts: seq<Action>): seq<Effect> {
    if acts == [] then []
    else Effects(acts[..|acts| - 1]) + match acts[|acts| - 1] case Sleep(_) => [] case Actuate(d, v) => [(d, v)]
  }

  /** What ignition threads have written, in order. */
  function IgnitionEffects(writes: seq<Write>): seq<Effect> {
    if writes == [] then []
    else
      var w := writes[|writes| - 1];
      IgnitionEffects(writes[..|writes| - 1]) + if w.author.Ignition? then [(w.driver, w.value)] else []
  }

  function Copies(s: seq<Effect>, n: nat): seq<Effect> {
    if n == 0 then [] else Copies(s, n - 1) + s
  }

  lemma IgnitionEffectsSnoc(writes: seq<Write>, w: Write)
    ensures IgnitionEffects(writes + [w])
         == IgnitionEffects(writes) + if w.author.Ignition? then [(w.driver, w.value)] else []
  {
    assert (writes + [w])[..|writes + [w]| - 1] == writes;
  }

  /** `k` actions of the current ignition are done; outside Ignite none is in progress. */
  predicate SerialAt(p: Plan, c: Config, k: nat) {
    && k <= |p.ignition|
    && (c.guard != Ignite ==> k == 0)
    && (forall t :: 0 <= t < |c.threads| ==> AgreesWith(c.threads[t], c.guard))
    && (forall t, u :: 0 <= t < u < |c.threads| && PastStart(c.threads[t]) ==> !PastStart(c.threads[u]))
    && (forall t :: 0 <= t < |c.threads| && c.threads[t].IgnAct? ==> c.threads[t].rest == p.ignition[k..])
    && IgnitionEffects(c.writes)
       == Copies(Effects(p.ignition), Entries(c.moves, PostIgnite)) + Effects(p.ignition[..k])
  }

  /** When thread `t` gets the guard to move, no other thread is past its start. */
  lemma OthersIdle(p: Plan, c: Config, t: nat, gpio: bool, k: nat)
    requires SerialAt(p, c, k) && t < |c.threads|
    requires AdvanceThread(p, c, t, gpio).moves != c.moves && AdvanceThread(p, c, t, gpio).guard != EStopping
    ensures forall u :: 0 <= u < |c.threads| && u != t ==> !PastStart(c.threads[u])
  {
    forall u | 0 <= u < |c.threads| && u != t ensures !PastStart(c.threads[u]) {
      assert AgreesWith(c.threads[t], c.guard) && AgreesWith(c.threads[u], c.guard);
      if !PastStart(c.threads[t]) {
        assert c.threads[t].IgnStart? && c.guard == Standby;
      }
    }
  }

  /** Replacing one thread, when no other is past its start. */
  lemma ReplaceOne(threads: seq<Phase>, t: nat, after: seq<Phase>, guard: State)
    requires t < |threads| == |after| && after == threads[t := after[t]] && AgreesWith(after[t], guard)
    requires forall u :: 0 <= u < |threads| && u != t ==> !PastStart(threads[u])
    ensures forall u :: 0 <= u < |after| ==> AgreesWith(after[u], guard)
    ensures forall u, v :: 0 <= u < v < |after| && PastStart(after[u]) ==> !PastStart(after[v])
  {
  }

  /** The acting thread works through one more action, or ends. */
  lemma SerialActing(p: Plan, c: Config, t: nat, gpio: bool, k: nat) returns (k': nat)
    requires SerialAt(p, c, k) && t < |c.threads| && c.threads[t].IgnAct? && c.threads[t].rest != []
    ensures SerialAt(p, AdvanceThread(p, c, t, gpio), k')
  {
    var d := AdvanceThread(p, c, t, gpio);
    var a := p.ignition[k];
    assert c.threads[t].rest == p.ignition[k..] && p.ignition[k..][0] == a && p.ignition[k..][1..] == p.ignition[k + 1..];
    if c.held && a.Actuate? {
      k' := k;
    } else if d.threads[t].Done? {
      k' := k;
      SerialEnded(p, c, d, t, k);
    } else {
      k' := k + 1;
      if a.Actuate? {
        IgnitionEffectsSnoc(c.writes, Write(Author.Ignition(t), a.driverId, a.value));
      }
      SerialWorked(p, c, d, t, k);
    }
  }

  lemma EffectsNext(acts: seq<Action>, k: nat)
    requires k < |acts|
    ensures Effects(acts[..k + 1])
         == Effects(acts[..k]) + match acts[k] case Sleep(_) => [] case Actuate(id, v) => [(id, v)]
  {
    assert acts[..k + 1][..k] == acts[..k];
  }

  lemma SerialWorked(p: Plan, c: Config, d: Config, t: nat, k: nat)
    requires SerialAt(p, c, k) && t < |c.threads| && c.threads[t].IgnAct? && k < |p.ignition|
    requires d.threads == c.threads[t := IgnAct(p.ignition[k + 1..])] && d.guard == c.guard && d.moves == c.moves
    requires IgnitionEffects(d.writes) == IgnitionEffects(c.writes) +
      match p.ignition[k] case Sleep(_) => [] case Actuate(id, v) => [(id, v)]
    ensures SerialAt(p, d, k + 1)
  {
    hide Effects, IgnitionEffects, Copies, Entries;
    assert AgreesWith(c.threads[t], c.guard);
    EffectsNext(p.ignition, k);
  }

  /** A move of the guard by the only thread past its start, and what it does to the write history. */
  lemma SerialMoved(p: Plan, c: Config, d: Config, t: nat, k: nat)
    requires SerialAt(p, c, k) && t < |c.threads| == |d.threads|
    requires d.threads == c.threads[t := d.threads[t]] && d.writes == c.writes
    requires d.moves == c.moves + [Move(c.guard, d.guard)]
    requires AgreesWith(d.threads[t], d.guard) && (d.threads[t].IgnAct? ==> d.threads[t].rest == p.ignition)
    requires if d.guard == PostIgnite then k == |p.ignition| else k == 0
    requires forall u :: 0 <= u < |c.threads| && u != t ==> !PastStart(c.threads[u])
    ensures SerialAt(p, d, 0)
  {
    hide AdvanceThread;
    ReplaceOne(c.threads, t, d.threads, d.guard);
    EntriesSnoc(c.moves, Move(c.guard, d.guard), PostIgnite);
    assert p.ignition[..|p.ignition|] == p.ignition;
    assert p.ignition[0..] == p.ignition && p.ignition[..0] == [];
  }

  /** A refused move ends a thread and changes nothing else. */
  lemma SerialEnded(p: Plan, c: Config, d: Config, t: nat, k: nat)
    requires SerialAt(p, c, k) && t < |c.threads| == |d.threads|
    requires d.threads == c.threads[t := d.threads[t]] && d.threads[t].Done?
    requires d.guard == c.guard && d.writes == c.writes && d.moves == c.moves
    ensures SerialAt(p, d, k)
  {
  }

  /** An attempted guard move that does not end in an emergency stop keeps ignitions serial. */
  lemma SerialMoving(p: Plan, c: Config, t: nat, gpio: bool, k: nat) returns (k': nat)
    requires SerialAt(p, c, k) && t < |c.threads|
    requires c.threads[t].IgnAct? ==> c.threads[t].rest == []
    requires AdvanceThread(p, c, t, gpio).guard != EStopping
    ensures SerialAt(p, AdvanceThread(p, c, t, gpio), k')
  {
    var d := AdvanceThread(p, c, t, gpio);
    AdvanceEntry(p, c, t, gpio);
    assert AgreesWith(c.threads[t], c.guard);
    if d.moves == c.moves {
      k' := k;
      SerialEnded(p, c, d, t, k);
    } else {
      OthersIdle(p, c, t, gpio, k);
      if c.threads[t].IgnAct? {
        assert k == |p.ignition| by { assert |p.ignition[k..]| == 0; }
      }
      k' := 0;
      SerialMoved(p, c, d, t, k);
    }
  }

  lemma SerialStep(p: Plan, c: Config, e: Event, k: nat) returns (k': nat)
    requires SerialAt(p, c, k) && NoneTo(Next(p, c, e).moves, EStopping) && c.guard != EStopping
    ensures SerialAt(p, Next(p, c, e), k')
    ensures Next(p, c, e).guard != EStopping
  {
    hide AdvanceThread;
    StepMoves(p, c, e);
    var d := Next(p, c, e);
    if d.moves != c.moves {
      assert d.moves[|c.moves|].to == d.guard;
    }
    if e.Advance? && e.tid < |c.threads| {
      if c.threads[e.tid].IgnAct? && c.threads[e.tid].rest != [] {
        k' := SerialActing(p, c, e.tid, e.gpio, k);
      } else {
        k' := SerialMoving(p, c, e.tid, e.gpio, k);
      }
    } else {
      k' := k;
      SerialOther(p, c, e, k);
    }
  }

  /** Spawns, manual writes and a shutdown request do not touch an ignition. */
  lemma SerialOther(p: Plan, c: Config, e: Event, k: nat)
    requires SerialAt(p, c, k) && !(e.Advance? && e.tid < |c.threads|)
    ensures SerialAt(p, Next(p, c, e), k)
  {
    hide AdvanceThread, SerialAt, IgnitionEffects, Entries;
    var d := Next(p, c, e);
    if d.writes != c.writes {
      IgnitionEffectsSnoc(c.writes, Write(Operator, e.driverId, e.value));
    }
    if d.moves != c.moves {
      EntriesSnoc(c.moves, Move(c.guard, Quit), PostIgnite);
    }
    SerialFrame(p, c, d, k);
  }

  lemma SerialFrame(p: Plan, c: Config, d: Config, k: nat)
    requires SerialAt(p, c, k)
    requires d.threads == c.threads || (exists ph :: d.threads == c.threads + [ph] && (ph.IgnStart? || ph.EsStart?))
    requires d.guard == c.guard || (c.guard == Standby && d.guard == Quit)
    requires IgnitionEffects(d.writes) == IgnitionEffects(c.writes)
    requires Entries(d.moves, PostIgnite) == Entries(c.moves, PostIgnite)
    ensures SerialAt(p, d, k)
  {
  }

  /** While no emergency stop has been accepted: at most one thread is past its first move, its phase
      is the guard's state, and the ignition threads' writes are one whole copy of the sequence for
      every ignition that reached PostIgnite, then the first `k` actions of the current one. */
  lemma {:induction false} EStopFreeRunsAreSerial(p: Plan, lines: seq<bool>, es: seq<Event>) returns (k: nat)
    requires NoneTo(Run(p, Init(lines), es).moves, EStopping)
    ensures var c := Run(p, Init(lines), es);
      && c.guard != EStopping
      && SerialAt(p, c, k)
      && (forall t, u | 0 <= t < |c.threads| && 0 <= u < |c.threads| ::
            PastStart(c.threads[t]) && PastStart(c.threads[u]) ==> t == u)
      && IgnitionEffects(c.writes)
         == Copies(Effects(p.ignition), Entries(c.moves, PostIgnite)) + Effects(p.ignition[..k])
    decreases |es|
  {
    hide AdvanceThread;
    if es == [] {
      k := 0;
    } else {
      var c, e := Run(p, Init(lines), es[..|es| - 1]), es[|es| - 1];
      StepMoves(p, c, e);
      assert c.moves <= Next(p, c, e).moves;
      assert NoneTo(c.moves, EStopping) by {
        forall i | 0 <= i < |c.moves| ensures c.moves[i].to != EStopping {
          assert c.moves[i] == Next(p, c, e).moves[i];
        }
      }
      k := EStopFreeRunsAreSerial(p, lines, es[..|es| - 1]);
      k := SerialStep(p, c, e, k);
    }
  }
}
