/** Runs of a state machine, and the induction that every invariant of one rests on. */
module Traces {

  /** From a start state, each state leads to the next by a step. */
  ghost predicate IsTrace<S(!new)>(states: seq<S>, start: S -> bool, next: (S, S) -> bool) {
    && |states| > 0 && start(states[0])
    && forall i :: 0 <= i < |states| - 1 ==> next(states[i], states[i + 1])
  }

  /** What holds at the start and is kept by every step holds all along. */
  lemma {:induction false} InvariantHolds<S(!new)>(states: seq<S>, start: S -> bool, next: (S, S) -> bool,
                                                   inv: S -> bool)
    requires IsTrace(states, start, next)
    requires forall s :: start(s) ==> inv(s)
    requires forall s, t :: inv(s) && next(s, t) ==> inv(t)
    ensures forall i :: 0 <= i < |states| ==> inv(states[i])
  {
    if |states| > 1 {
      var front := states[..|states| - 1];
      assert IsTrace(front, start, next);
      InvariantHolds(front, start, next, inv);
      assert inv(front[|front| - 1]) && next(states[|states| - 2], states[|states| - 2 + 1]);
    }
  }
}
