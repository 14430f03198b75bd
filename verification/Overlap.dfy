/** When two syncs of one domain can run at the same time. */
module Overlap {
  import opened Options
  import opened Lists
  import opened Runs
  import opened Debounce

  /** A hook that has not touched the map, or a callback that has not finished. */
  function ThreadItem(d: string): Thread -> nat {
    (t: Thread) =>
      if t.domain != d then 0
      else if t.job == Hook then (if t.phase in {Waiting, Holding} then 1 else 0)
      else if t.phase == Finished then 0 else 1
  }

  function TimerItem(d: string): Timer -> nat {
    (t: Timer) => if t == Timer(d, true) then 1 else 0
  }

  /** How many hooks still to act, armed timers and unfinished callbacks a domain has: each can become one sync. */
  function Items(s: State, d: string): nat {
    Sum(ThreadItem(d), s.threads) + Sum(TimerItem(d), s.timers)
  }

  predicate SyncingFor(s: State, i: nat, d: string) {
    i < |s.threads| && s.threads[i] == Thread(Callback, d, Syncing)
  }

  /** Two syncs of the domain are running. */
  ghost predicate Overlapping(s: State, d: string) {
    exists i: nat, j: nat :: i < j && SyncingFor(s, i, d) && SyncingFor(s, j, d)
  }

  // ---- no step but an edit adds an item --------------------------------

  lemma ItemMoved(s: State, d: string, i: nat, p: Phase)
    requires i < |s.threads|
    ensures var t := s.threads[i];
            Items(Moved(s, i, p), d) + ThreadItem(d)(t) == Items(s, d) + ThreadItem(d)(t.(phase := p))
  {
    SumUpdate(ThreadItem(d), s.threads, i, s.threads[i].(phase := p));
  }

  lemma ItemArmed(s: State, d: string, e: string)
    requires e in s.byDomain ==> s.byDomain[e] < |s.timers| && s.timers[s.byDomain[e]].domain == e
    ensures var t := if e in s.byDomain then TimerItem(d)(s.timers[s.byDomain[e]]) else 0;
            Items(ResetOrArm(s, e), d) == Items(s, d) + (if e == d then 1 else 0) - t
  {
    if e in s.byDomain {
      SumUpdate(TimerItem(d), s.timers, s.byDomain[e], Timer(e, true));
    } else {
      SumAppend(TimerItem(d), s.timers, Timer(e, true));
    }
  }

  lemma ItemsStep(s: State, e: Event, d: string)
    requires Inv(s) && Enabled(s, e) && !e.Write?
    ensures Items(Apply(s, e), d) <= Items(s, d)
    ensures e.Fire? || e.Acquire? || e.Release? || e.StartCheck? ==> Items(Apply(s, e), d) == Items(s, d)
    ensures e.Act? && (forall t: nat :: !ArmedFor(s, t, d)) ==> Items(Apply(s, e), d) == Items(s, d)
  {
    hide Items, Inv;
    InvIndexed(s);
    match e
    case Fire(t) => ItemFired(s, t, d);
    case Act(i) =>
      ItemMoved(s, d, i, Acted);
      var m, c := Moved(s, i, Acted), s.threads[i].domain;
      if s.threads[i].job == Hook {
        ItemArmed(m, d, c);
        assert c in s.byDomain && !ArmedFor(s, s.byDomain[c], d) ==> TimerItem(d)(s.timers[s.byDomain[c]]) == 0;
      } else {
        SameItems(m, m.(byDomain := m.byDomain - {c}), d);
      }
    case Acquire(i) =>
      ItemMoved(s, d, i, Holding);
      SameItems(Moved(s, i, Holding), Apply(s, e), d);
    case Release(i) =>
      var next := if s.threads[i].job == Hook then Finished else Unlocked;
      ItemMoved(s, d, i, next);
      SameItems(Moved(s, i, next), Apply(s, e), d);
    case StartCheck(i) =>
      ItemMoved(s, d, i, Syncing);
      SameItems(Moved(s, i, Syncing), Apply(s, e), d);
      UnlockedCallback(s, i);
    case FinishSync(i) => ItemMoved(s, d, i, Finished);
  }

  lemma SameItems(s: State, t: State, d: string)
    requires s.threads == t.threads && s.timers == t.timers
    ensures Items(s, d) == Items(t, d)
  {
  }

  lemma UnlockedCallback(s: State, i: nat)
    requires Inv(s) && InPhase(s, i, Unlocked)
    ensures s.threads[i].job == Callback
  {
  }

  lemma ItemFired(s: State, t: nat, d: string)
    requires Indexed(s) && Enabled(s, Fire(t))
    ensures Items(Apply(s, Fire(t)), d) == Items(s, d)
  {
    var e := s.timers[t].domain;
    SumUpdate(TimerItem(d), s.timers, t, Timer(e, false));
    SumAppend(ThreadItem(d), s.threads, Thread(Callback, e, Waiting));
  }

  // ---- towards an overlap ----------------------------------------------

  /** With two items and no overlap yet, some step other than an edit loses no item. */
  lemma NextStep(s: State, d: string) returns (e: Event)
    requires Inv(s) && Items(s, d) >= 2 && !Overlapping(s, d)
    ensures !e.Write? && Enabled(s, e) && Items(Apply(s, e), d) == Items(s, d)
  {
    hide Items, Apply;
    if t: nat :| ArmedFor(s, t, d) {
      e := Fire(t);
    } else if s.owner.Some? {
      e := if InPhase(s, s.owner.value, Holding) then Act(s.owner.value) else Release(s.owner.value);
    } else if i: nat :| InPhase(s, i, Waiting) {
      e := Acquire(i);
    } else if i: nat :| InPhase(s, i, Unlocked) {
      e := StartCheck(i);
    } else {
      forall i | 0 <= i < |s.threads|
        ensures s.threads[i].phase in {Syncing, Finished}
      {
        assert !InPhase(s, i, Waiting) && !InPhase(s, i, Unlocked);
      }
      TwoSyncing(s, d);
      assert false;
    }
    ItemsStep(s, e, d);
  }

  /** Where nobody waits for the mutex, holds it or is about to check, two items are two running syncs. */
  lemma TwoSyncing(s: State, d: string)
    requires Items(s, d) >= 2
    requires forall t: nat :: !ArmedFor(s, t, d)
    requires forall i :: 0 <= i < |s.threads| ==> s.threads[i].phase in {Syncing, Finished}
    ensures Overlapping(s, d)
  {
    forall t | 0 <= t < |s.timers|
      ensures s.timers[t] != Timer(d, true)
    {
      assert !ArmedFor(s, t, d);
    }
    NoneArmed(s.timers, d);
    var i, j := SumTwo(ThreadItem(d), s.threads);
    assert SyncingFor(s, i, d) && SyncingFor(s, j, d);
  }

  lemma {:induction false} NoneArmed(timers: seq<Timer>, d: string)
    requires forall t :: 0 <= t < |timers| ==> timers[t] != Timer(d, true)
    ensures Sum(TimerItem(d), timers) == 0
  {
    if timers != [] {
      NoneArmed(timers[1..], d);
    }
  }

  /** A run without edits that leads to an overlap. */
  ghost predicate LeadsToOverlap(s: State, states: seq<State>, events: seq<Event>, d: string) {
    && IsRun(SilentStep, states, events) && states[0] == s && Overlapping(states[|events|], d)
  }

  lemma {:induction false} Reach(s: State, d: string) returns (states: seq<State>, events: seq<Event>)
    requires Inv(s) && Items(s, d) >= 2
    ensures LeadsToOverlap(s, states, events, d)
    decreases Weight(s)
  {
    hide Inv, Items, Weight, Overlapping, Enabled, Apply;
    if Overlapping(s, d) {
      states, events := [s], [];
    } else {
      var e := NextStep(s, d);
      InvIndexed(s);
      InvKept(s, e);
      StepShrinks(s, e);
      var rest, more := Reach(Apply(s, e), d);
      states, events := [s] + rest, [e] + more;
      Preceded(s, e, rest, more);
    }
  }

  lemma Preceded(s: State, e: Event, rest: seq<State>, more: seq<Event>)
    requires IsRun(SilentStep, rest, more) && SilentStep(s, e, rest[0])
    ensures IsRun(SilentStep, [s] + rest, [e] + more)
  {
    var states, events := [s] + rest, [e] + more;
    forall k | 0 <= k < |events|
      ensures SilentStep(states[k], events[k], states[k + 1])
    {
      assert k > 0 ==> SilentStep(rest[k - 1], more[k - 1], rest[k]);
    }
  }

  lemma OverlapItems(s: State, d: string)
    requires Overlapping(s, d)
    ensures Items(s, d) >= 2
  {
    var i: nat, j: nat :| i < j && SyncingFor(s, i, d) && SyncingFor(s, j, d);
    SumAtLeast(ThreadItem(d), s.threads, i);
  }

  /** Two syncs of a domain can come to run at once, by some continuation without edits, if and only if the domain has
      two among its hooks still to act, armed timers and unfinished callbacks. */
  lemma OverlapReachableIff(s: State, d: string)
    requires Inv(s)
    ensures (exists states, events :: LeadsToOverlap(s, states, events, d)) <==> Items(s, d) >= 2
  {
    hide Inv, Items, Overlapping;
    if states, events :| LeadsToOverlap(s, states, events, d) {
      ghost var inv: State -> bool := t => Inv(t) && Items(t, d) <= Items(s, d);
      forall t, e, t' | inv(t) && SilentStep(t, e, t')
        ensures inv(t')
      {
        InvKept(t, e);
        ItemsStep(t, e, d);
      }
      Along(SilentStep, inv, states, events, |events|);
      OverlapItems(states[|events|], d);
    }
    if Items(s, d) >= 2 {
      var states, events := Reach(s, d);
    }
  }
}
