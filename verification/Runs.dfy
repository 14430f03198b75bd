/** Runs of a state machine: sequences of states linked by events. */
module Runs {

  /** One event takes each state to the next. */
  ghost predicate IsRun<S(!new), E(!new)>(taken: (S, E, S) -> bool, states: seq<S>, events: seq<E>) {
    && |states| == |events| + 1
    && forall k :: 0 <= k < |events| ==> taken(states[k], events[k], states[k + 1])
  }

  /** What every step keeps holds along a run. */
  lemma {:induction false} Along<S(!new), E(!new)>(taken: (S, E, S) -> bool, inv: S -> bool, states: seq<S>,
                                                   events: seq<E>, k: nat)
    requires IsRun(taken, states, events) && inv(states[0]) && k < |states|
    requires forall s, e, t :: inv(s) && taken(s, e, t) ==> inv(t)
    ensures inv(states[k])
  {
    if k > 0 {
      Along(taken, inv, states, events, k - 1);
      assert taken(states[k - 1], events[k - 1], states[k]);
    }
  }

  /** When every step uses up weight, a run is no longer than the weight it starts with. */
  lemma {:induction false} Shrinks<S(!new), E(!new)>(taken: (S, E, S) -> bool, inv: S -> bool, weight: S -> nat,
                                                     states: seq<S>, events: seq<E>, k: nat)
    requires IsRun(taken, states, events) && inv(states[0]) && k <= |events|
    requires forall s, e, t :: inv(s) && taken(s, e, t) ==> inv(t) && weight(t) < weight(s)
    ensures inv(states[k]) && k + weight(states[k]) <= weight(states[0])
  {
    if k > 0 {
      Shrinks(taken, inv, weight, states, events, k - 1);
      assert taken(states[k - 1], events[k - 1], states[k]);
    }
  }

  /** One more step at the end of a run. */
  lemma Extended<S(!new), E(!new)>(taken: (S, E, S) -> bool, states: seq<S>, events: seq<E>, e: E, t: S)
    requires IsRun(taken, states, events) && taken(states[|events|], e, t)
    ensures IsRun(taken, states + [t], events + [e])
  {
    var more, evs := states + [t], events + [e];
    forall k | 0 <= k < |evs|
      ensures taken(more[k], evs[k], more[k + 1])
    {
      assert k < |events| ==> taken(states[k], events[k], states[k + 1]);
    }
  }
}
