/** The six-state machine every thread of the controller shares (src/state.rs). */
module StateGuard {

  datatype State = Standby | PreIgnite | Ignite | PostIgnite | EStopping | Quit

  /** The ways a transition can be refused. Lock poisoning of the guard itself is not modelled:
      no code path panics while it holds the guard. */
  datatype GuardError = IllegalTransition(from: State, to: State)

  datatype MoveResult = Moved | Refused(error: GuardError)

  /** The transition table, row by row as the code has it. */
  predicate MayMove(from: State, to: State) {
    match to
    case Standby => from == EStopping || from == PostIgnite
    case PreIgnite => from == Standby
    case Quit => from == Standby
    case Ignite => from == PreIgnite
    case PostIgnite => from == Ignite
    case EStopping => from != Quit
  }

  class Guard {
    var state: State

    constructor (initial: State)
      ensures state == initial
    {
      state := initial;
    }

    method Status() returns (s: State)
      ensures s == state
    {
      s := state;
    }

    /** One atomic attempt to move. A refused move reports both ends and changes nothing. */
    method MoveTo(newState: State) returns (r: MoveResult)
      modifies this
      ensures r.Moved? <==> MayMove(old(state), newState)
      ensures r.Moved? ==> state == newState
      ensures r.Refused? ==> state == old(state) && r.error == IllegalTransition(old(state), newState)
    {
      var oldState := state;
      var validTransition;
      match newState {
        case Standby => validTransition := oldState == EStopping || oldState == PostIgnite;
        case PreIgnite => validTransition := oldState == Standby;
        case Quit => validTransition := oldState == Standby;
        case Ignite => validTransition := oldState == PreIgnite;
        case PostIgnite => validTransition := oldState == Ignite;
        case EStopping => validTransition := oldState != Quit;
      }
      if !validTransition {
        return Refused(IllegalTransition(oldState, newState));
      }
      state := newState;
      return Moved;
    }
  }

  // ---------------------------------------------------------------------------------------------
  // Walks through the table
  // ---------------------------------------------------------------------------------------------

  /** Where each state leads. */
  function Successors(from: State): set<State> {
    match from
    case Standby => {PreIgnite, EStopping, Quit}
    case PreIgnite => {Ignite, EStopping}
    case Ignite => {PostIgnite, EStopping}
    case PostIgnite => {Standby, EStopping}
    case EStopping => {Standby, EStopping}
    case Quit => {}
  }

  /** The table, which is written by destination, read by origin. */
  lemma TableByOrigin(from: State, to: State)
    ensures MayMove(from, to) <==> to in Successors(from)
  {
  }

  /** A sequence of states each of which the guard may move to from the one before. */
  predicate Walk(w: seq<State>) {
    forall i :: 0 <= i < |w| - 1 ==> MayMove(w[i], w[i + 1])
  }

  /** Every ignition in a walk that starts in Standby went through pre-ignition from Standby, and a
      walk that reaches Quit ends there. The documentation of `Ignite` names Standby as its only
      predecessor; the table says PreIgnite, and this is what the whole walk then guarantees. */
  lemma WalkStructure(w: seq<State>, i: nat)
    requires Walk(w) && i < |w| && w[0] == Standby
    ensures w[i] == Ignite ==> i >= 2 && w[i - 1] == PreIgnite && w[i - 2] == Standby
    ensures w[i] == PostIgnite ==> i >= 3 && w[i - 1] == Ignite && w[i - 3] == Standby
    ensures w[i] == Quit ==> i == |w| - 1 && w[i - 1] == Standby
  {
    if i >= 1 {
      assert MayMove(w[i - 1], w[i]);
    }
    if i >= 2 {
      assert MayMove(w[i - 2], w[i - 1]);
    }
    if i >= 3 {
      assert MayMove(w[i - 3], w[i - 2]);
    }
    if i + 1 < |w| {
      assert MayMove(w[i], w[i + 1]);
    }
  }
}
