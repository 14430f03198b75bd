/** The per-domain trailing debounce that turns DNS record edits into Cloudflare sync checks.

    An edit first writes its record and then starts a goroutine running the hook; the hook takes the
    mutex and either resets the domain's timer or arms a new one. A timer that expires starts a
    callback goroutine, which takes the mutex, deletes the domain's map entry (by domain, whichever
    timer that entry names by now), releases the mutex and then starts its sync check, which hands the
    domain to a detached sync that ends some time later. Every step below is one atomic action of one
    goroutine; a run is any interleaving of them. */
module Debounce {

  import opened Options
  import opened Lists
  import opened Runs

  /** `armed` is false once the timer has expired and not been reset since. */
  datatype Timer = Timer(domain: string, armed: bool)

  datatype Job = Hook | Callback

  /** Waiting for the mutex; inside it, before and after touching the map; past it; syncing; done. */
  datatype Phase = Waiting | Holding | Acted | Unlocked | Syncing | Finished

  datatype Thread = Thread(job: Job, domain: string, phase: Phase)

  /** `lastEdit` and `lastCheck` date, on one logical clock, the latest record write and the latest
      sync-check start of each domain. */
  datatype State = State(
    owner: Option<nat>, byDomain: map<string, nat>, timers: seq<Timer>, threads: seq<Thread>,
    clock: nat, lastEdit: map<string, nat>, lastCheck: map<string, nat>)

  const INIT := State(None, map[], [], [], 0, map[], map[])

  datatype Event =
    | Write(domain: string)
    | Acquire(thread: nat)
    | Act(thread: nat)
    | Release(thread: nat)
    | Fire(timer: nat)
    | StartCheck(thread: nat)
    | FinishSync(thread: nat)

  predicate InPhase(s: State, i: nat, p: Phase) {
    i < |s.threads| && s.threads[i].phase == p
  }

  predicate Enabled(s: State, e: Event) {
    match e
    case Write(_) => true
    case Acquire(i) => InPhase(s, i, Waiting) && s.owner == None
    case Act(i) => InPhase(s, i, Holding)
    case Release(i) => InPhase(s, i, Acted)
    case Fire(t) => t < |s.timers| && s.timers[t].armed
    case StartCheck(i) => InPhase(s, i, Unlocked)
    case FinishSync(i) => InPhase(s, i, Syncing)
  }

  function Moved(s: State, i: nat, p: Phase): State
    requires i < |s.threads|
  {
    s.(threads := s.threads[i := s.threads[i].(phase := p)])
  }

  function ResetOrArm(s: State, d: string): State
    requires d in s.byDomain ==> s.byDomain[d] < |s.timers|
  {
    if d in s.byDomain then
      s.(timers := s.timers[s.byDomain[d] := s.timers[s.byDomain[d]].(armed := true)])
    else
      s.(timers := s.timers + [Timer(d, true)], byDomain := s.byDomain[d := |s.timers|])
  }

  /** Map entries name existing timers of their own domain. */
  ghost predicate Indexed(s: State) {
    forall d <- s.byDomain :: s.byDomain[d] < |s.timers| && s.timers[s.byDomain[d]].domain == d
  }

  ghost function Apply(s: State, e: Event): State
    requires Enabled(s, e) && Indexed(s)
  {
    match e
    case Write(d) =>
      s.(lastEdit := s.lastEdit[d := s.clock], clock := s.clock + 1,
         threads := s.threads + [Thread(Hook, d, Waiting)])
    case Acquire(i) => Moved(s, i, Holding).(owner := Some(i))
    case Act(i) =>
      var m := Moved(s, i, Acted);
      var d := s.threads[i].domain;
      if s.threads[i].job == Hook then ResetOrArm(m, d) else m.(byDomain := m.byDomain - {d})
    case Release(i) =>
      Moved(s, i, if s.threads[i].job == Hook then Finished else Unlocked).(owner := None)
    case Fire(t) =>
      var d := s.timers[t].domain;
      s.(timers := s.timers[t := Timer(d, false)], threads := s.threads + [Thread(Callback, d, Waiting)])
    case StartCheck(i) =>
      Moved(s, i, Syncing).(lastCheck := s.lastCheck[s.threads[i].domain := s.clock], clock := s.clock + 1)
    case FinishSync(i) => Moved(s, i, Finished)
  }

  // ---- what every step keeps -------------------------------------------

  /** The mutex is held exactly by the one thread inside the critical section. */
  ghost predicate MutexOk(s: State) {
    && (s.owner.Some? ==> InPhase(s, s.owner.value, Holding) || InPhase(s, s.owner.value, Acted))
    && forall i :: 0 <= i < |s.threads| && s.threads[i].phase in {Holding, Acted} ==> s.owner == Some(i)
  }

  ghost predicate ClockOk(s: State) {
    && (forall d <- s.lastEdit :: s.lastEdit[d] < s.clock)
    && (forall d <- s.lastCheck :: s.lastCheck[d] < s.clock)
  }

  /** The latest check of `d` started after its latest edit. */
  predicate Fresh(s: State, d: string)
    requires d in s.lastEdit
  {
    d in s.lastCheck && s.lastEdit[d] < s.lastCheck[d]
  }

  predicate ArmedFor(s: State, t: nat, d: string) {
    t < |s.timers| && s.timers[t] == Timer(d, true)
  }

  /** A hook that has not touched the map yet, or a callback that has not started its check. */
  predicate WorkingFor(s: State, i: nat, d: string) {
    && i < |s.threads| && s.threads[i].domain == d
    && s.threads[i].phase in
       (if s.threads[i].job == Hook then {Waiting, Holding} else {Waiting, Holding, Acted, Unlocked})
  }

  ghost predicate Pending(s: State, d: string) {
    (exists t: nat :: ArmedFor(s, t, d)) || (exists i: nat :: WorkingFor(s, i, d))
  }

  ghost predicate Inv(s: State) {
    && Indexed(s) && MutexOk(s) && ClockOk(s)
    && OnlyCallbacks(s)
    && forall d <- s.lastEdit :: Fresh(s, d) || Pending(s, d)
  }

  lemma PendingKept(s: State, e: Event, d: string)
    requires Inv(s) && Enabled(s, e) && Pending(s, d)
    requires !(e.StartCheck? && s.threads[e.thread].domain == d)
    ensures Pending(Apply(s, e), d)
  {
    var s' := Apply(s, e);
    if t: nat :| ArmedFor(s, t, d) {
      if e == Fire(t) {
        assert WorkingFor(s', |s.threads|, d);
      } else {
        assert ArmedFor(s', t, d);
      }
    } else {
      var i: nat :| WorkingFor(s, i, d);
      if e == Act(i) && s.threads[i].job == Hook {
        var t := if d in s.byDomain then s.byDomain[d] else |s.timers|;
        assert ArmedFor(s', t, d);
      } else {
        assert WorkingFor(s', i, d);
      }
    }
  }

  lemma MutexKept(s: State, e: Event)
    requires Indexed(s) && MutexOk(s) && Enabled(s, e)
    ensures MutexOk(Apply(s, e))
  {
  }

  lemma CoverKept(s: State, e: Event, d: string)
    requires Inv(s) && Enabled(s, e) && d in Apply(s, e).lastEdit
    ensures Fresh(Apply(s, e), d) || Pending(Apply(s, e), d)
  {
    var s' := Apply(s, e);
    if e == Write(d) {
      assert WorkingFor(s', |s.threads|, d);
    } else if e.StartCheck? && s.threads[e.thread].domain == d {
      assert Fresh(s', d);
    } else if Pending(s, d) {
      PendingKept(s, e, d);
    } else {
      assert Fresh(s, d);
    }
  }

  lemma ClockKept(s: State, e: Event)
    requires Indexed(s) && ClockOk(s) && Enabled(s, e)
    ensures ClockOk(Apply(s, e)) && Indexed(Apply(s, e))
  {
  }

  /** Only callbacks get past the mutex. */
  predicate OnlyCallbacks(s: State) {
    forall i :: 0 <= i < |s.threads| && s.threads[i].phase in {Unlocked, Syncing} ==> s.threads[i].job == Callback
  }

  lemma CallbacksKept(s: State, e: Event)
    requires OnlyCallbacks(s) && Indexed(s) && Enabled(s, e)
    ensures OnlyCallbacks(Apply(s, e))
  {
  }

  lemma InvKept(s: State, e: Event)
    requires Inv(s) && Enabled(s, e)
    ensures Inv(Apply(s, e))
  {
    hide MutexOk, ClockOk, Fresh, Pending, Indexed;
    MutexKept(s, e);
    ClockKept(s, e);
    CallbacksKept(s, e);
    forall d <- Apply(s, e).lastEdit {
      CoverKept(s, e, d);
    }
  }

  // ---- runs ------------------------------------------------------------

  /** One enabled event takes `s` to `s'`. */
  ghost predicate Taken(s: State, e: Event, s': State) {
    Indexed(s) && Enabled(s, e) && s' == Apply(s, e)
  }

  lemma InvAlong(states: seq<State>, events: seq<Event>, k: nat)
    requires IsRun(Taken, states, events) && Inv(states[0]) && k < |states|
    ensures Inv(states[k])
  {
    hide Inv;
    forall s, e, s' | Inv(s) && Taken(s, e, s')
      ensures Inv(s')
    {
      InvKept(s, e);
    }
    Along(Taken, Inv, states, events, k);
  }

  /** No goroutine has a step left and no timer is armed. */
  ghost predicate Quiescent(s: State) {
    && (forall i :: 0 <= i < |s.threads| ==> s.threads[i].phase == Finished)
    && (forall t :: 0 <= t < |s.timers| ==> !s.timers[t].armed)
  }

  /** In every interleaving, an edited domain whose latest edit has not been followed by a check start
      still has an armed timer, a hook on its way or a callback on its way; once nothing is left to
      run, the latest check of every edited domain started after its latest edit. */
  lemma NoLostEdit(states: seq<State>, events: seq<Event>, k: nat, d: string)
    requires IsRun(Taken, states, events) && states[0] == INIT && k < |states| && d in states[k].lastEdit
    ensures Fresh(states[k], d) || Pending(states[k], d)
    ensures Quiescent(states[k]) ==> Fresh(states[k], d)
    ensures forall i, j :: 0 <= i < j < |states[k].threads| && states[k].threads[i].phase in {Holding, Acted}
                           ==> states[k].threads[j].phase !in {Holding, Acted}
  {
    InvAlong(states, events, k);
  }

  // ---- every run drains ------------------------------------------------

  function ThreadWeight(t: Thread): nat {
    match t.phase
    case Waiting => if t.job == Hook then 10 else 5
    case Holding => if t.job == Hook then 9 else 4
    case Acted => if t.job == Hook then 1 else 3
    case Unlocked => 2
    case Syncing => 1
    case Finished => 0
  }

  function TimerWeight(t: Timer): nat {
    if t.armed then 6 else 0
  }

  /** An upper bound on the steps left before everything is quiescent. */
  function Weight(s: State): nat {
    Sum(ThreadWeight, s.threads) + Sum(TimerWeight, s.timers)
  }

  lemma ArmingCost(s: State, d: string)
    requires d in s.byDomain ==> s.byDomain[d] < |s.timers|
    ensures Sum(TimerWeight, ResetOrArm(s, d).timers) <= Sum(TimerWeight, s.timers) + 6
  {
    if d in s.byDomain {
      SumUpdate(TimerWeight, s.timers, s.byDomain[d], s.timers[s.byDomain[d]].(armed := true));
    } else {
      SumAppend(TimerWeight, s.timers, Timer(d, true));
    }
  }

  /** Every step except a new edit uses up some of the remaining weight. */
  lemma StepShrinks(s: State, e: Event)
    requires Inv(s) && Enabled(s, e) && !e.Write?
    ensures Weight(Apply(s, e)) < Weight(s)
  {
    hide Inv, Weight;
    InvIndexed(s);
    match e
    case Fire(t) => FireShrinks(s, t);
    case Act(i) => ActShrinks(s, i);
    case Acquire(i) => MoveShrinks(s, i, Holding, Apply(s, e));
    case Release(i) => MoveShrinks(s, i, if s.threads[i].job == Hook then Finished else Unlocked, Apply(s, e));
    case StartCheck(i) => MoveShrinks(s, i, Syncing, Apply(s, e));
    case FinishSync(i) => MoveShrinks(s, i, Finished, Apply(s, e));
  }

  lemma MoveShrinks(s: State, i: nat, p: Phase, s': State)
    requires i < |s.threads| && ThreadWeight(s.threads[i].(phase := p)) < ThreadWeight(s.threads[i])
    requires s'.threads == Moved(s, i, p).threads && s'.timers == s.timers
    ensures Weight(s') < Weight(s)
  {
    SumUpdate(ThreadWeight, s.threads, i, s.threads[i].(phase := p));
  }

  lemma FireShrinks(s: State, t: nat)
    requires Indexed(s) && Enabled(s, Fire(t))
    ensures Weight(Apply(s, Fire(t))) < Weight(s)
  {
    SumUpdate(TimerWeight, s.timers, t, Timer(s.timers[t].domain, false));
    SumAppend(ThreadWeight, s.threads, Thread(Callback, s.timers[t].domain, Waiting));
  }

  lemma ActShrinks(s: State, i: nat)
    requires Indexed(s) && Enabled(s, Act(i))
    ensures Weight(Apply(s, Act(i))) < Weight(s)
  {
    SumUpdate(ThreadWeight, s.threads, i, s.threads[i].(phase := Acted));
    ArmingCost(s, s.threads[i].domain);
  }

  lemma InvIndexed(s: State)
    requires Inv(s)
    ensures Indexed(s)
  {
  }

  /** The mutex never blocks for good: unless everything is quiescent some step other than an edit is enabled. */
  lemma NotStuck(s: State) returns (e: Event)
    requires Inv(s) && !Quiescent(s)
    ensures Enabled(s, e) && !e.Write?
  {
    if t :| 0 <= t < |s.timers| && s.timers[t].armed {
      e := Fire(t);
    } else if s.owner.Some? {
      e := if InPhase(s, s.owner.value, Holding) then Act(s.owner.value) else Release(s.owner.value);
    } else {
      var i :| 0 <= i < |s.threads| && s.threads[i].phase != Finished;
      e := if s.threads[i].phase == Waiting then Acquire(i)
           else if s.threads[i].phase == Syncing then FinishSync(i)
           else StartCheck(i);
    }
  }

  /** A step other than an edit. */
  ghost predicate SilentStep(s: State, e: Event, s': State) {
    Taken(s, e, s') && !e.Write?
  }

  /** Without edits every step of a run uses up weight and no date of an edit changes. */
  lemma SilentRunShrinks(states: seq<State>, events: seq<Event>)
    requires IsRun(Taken, states, events) && Inv(states[0])
    requires forall j :: 0 <= j < |events| ==> !events[j].Write?
    ensures var end := states[|events|];
            Inv(end) && |events| + Weight(end) <= Weight(states[0]) && end.lastEdit == states[0].lastEdit
  {
    hide Inv, Weight;
    var dates := states[0].lastEdit;
    ghost var inv: State -> bool := s => Inv(s) && s.lastEdit == dates;
    forall s, e, s' | inv(s) && SilentStep(s, e, s')
      ensures inv(s') && Weight(s') < Weight(s)
    {
      InvKept(s, e);
      StepShrinks(s, e);
    }
    forall k | 0 <= k < |events|
      ensures SilentStep(states[k], events[k], states[k + 1])
    {
      assert Taken(states[k], events[k], states[k + 1]);
    }
    Shrinks(SilentStep, inv, Weight, states, events, |events|);
  }

  /** Nothing but a new edit can happen. */
  ghost predicate Ended(s: State) {
    forall e: Event :: !e.Write? ==> !Enabled(s, e)
  }

  /** Once edits stop, every schedule ends within `Weight` steps, and where it ends every edited domain has
      been checked after its latest edit. */
  lemma EverySilentRunDrains(states: seq<State>, events: seq<Event>)
    requires IsRun(Taken, states, events) && Inv(states[0])
    requires forall j :: 0 <= j < |events| ==> !events[j].Write?
    ensures |events| <= Weight(states[0])
    ensures Ended(states[|events|]) ==>
              && Quiescent(states[|events|])
              && states[|events|].lastEdit == states[0].lastEdit
              && forall d <- states[0].lastEdit :: Fresh(states[|events|], d)
  {
    var s := states[|events|];
    SilentRunShrinks(states, events);
    if Ended(s) && !Quiescent(s) {
      var e := NotStuck(s);
      assert false;
    }
  }

  // ---- one pending check per burst -------------------------------------

  /** A callback whose check has not started or whose sync has not ended. */
  predicate Unfinished(s: State, i: nat, d: string) {
    && i < |s.threads| && s.threads[i].job == Callback && s.threads[i].domain == d
    && s.threads[i].phase != Finished
  }

  /** Two syncs of one domain are under way or on their way: the burst was not coalesced. */
  ghost predicate TwoPending(s: State) {
    || (exists d, t: nat, u: nat :: t != u && ArmedFor(s, t, d) && ArmedFor(s, u, d))
    || (exists d, t: nat, i: nat :: ArmedFor(s, t, d) && Unfinished(s, i, d))
    || (exists d, i: nat, j: nat :: i != j && Unfinished(s, i, d) && Unfinished(s, j, d))
  }

  /** A hook resets or arms a timer while a callback of its domain is unfinished. */
  ghost predicate Overtakes(s: State, e: Event) {
    && e.Act? && e.thread < |s.threads| && s.threads[e.thread].job == Hook
    && exists i: nat :: Unfinished(s, i, s.threads[e.thread].domain)
  }

  /** A callback that has not yet deleted its domain's map entry. */
  predicate Undeleted(s: State, i: nat, d: string) {
    Unfinished(s, i, d) && s.threads[i].phase in {Waiting, Holding}
  }

  /** Every armed timer is the one its domain's map entry names. */
  ghost predicate ArmedIndexed(s: State) {
    forall t: nat, d :: ArmedFor(s, t, d) ==> d in s.byDomain && s.byDomain[d] == t
  }

  predicate EntryExpired(s: State, d: string) {
    d in s.byDomain && s.byDomain[d] < |s.timers| && !s.timers[s.byDomain[d]].armed
  }

  ghost predicate ExpiredUndeleted(s: State) {
    forall d :: EntryExpired(s, d) ==> exists i: nat :: Undeleted(s, i, d)
  }

  ghost predicate Coalesced(s: State) {
    ArmedIndexed(s) && ExpiredUndeleted(s) && !TwoPending(s)
  }

  lemma CoalescedFire(s: State, t: nat)
    requires Inv(s) && Enabled(s, Fire(t)) && Coalesced(s)
    ensures Coalesced(Apply(s, Fire(t)))
  {
    var s', d := Apply(s, Fire(t)), s.timers[t].domain;
    assert ArmedFor(s, t, d);
    assert forall u: nat, c :: ArmedFor(s', u, c) <==> ArmedFor(s, u, c) && u != t;
    assert forall i: nat, c :: Unfinished(s', i, c) <==> Unfinished(s, i, c) || (i == |s.threads| && c == d);
    assert forall c :: c != d ==> EntryExpired(s', c) == EntryExpired(s, c);
    forall c | EntryExpired(s', c)
      ensures exists i: nat :: Undeleted(s', i, c)
    {
      if c == d {
        assert Undeleted(s', |s.threads|, d);
      } else {
        var i: nat :| Undeleted(s, i, c);
        assert Undeleted(s', i, c);
      }
    }
  }

  lemma CoalescedCallback(s: State, k: nat)
    requires Inv(s) && Enabled(s, Act(k)) && Coalesced(s) && s.threads[k].job == Callback
    ensures Coalesced(Apply(s, Act(k)))
  {
    var s', d := Apply(s, Act(k)), s.threads[k].domain;
    assert Unfinished(s, k, d);
    assert forall u: nat, c :: ArmedFor(s', u, c) <==> ArmedFor(s, u, c);
    assert forall i: nat, c :: Unfinished(s', i, c) <==> Unfinished(s, i, c);
    assert forall c :: EntryExpired(s', c) <==> EntryExpired(s, c) && c != d;
    forall c | EntryExpired(s', c)
      ensures exists i: nat :: Undeleted(s', i, c)
    {
      var i: nat :| Undeleted(s, i, c);
      assert Undeleted(s', i, c);
    }
  }

  lemma CoalescedHook(s: State, k: nat)
    requires Inv(s) && Enabled(s, Act(k)) && Coalesced(s) && s.threads[k].job == Hook && !Overtakes(s, Act(k))
    ensures Coalesced(Apply(s, Act(k)))
  {
    var s', d := Apply(s, Act(k)), s.threads[k].domain;
    var t := if d in s.byDomain then s.byDomain[d] else |s.timers|;
    assert forall i: nat, c :: Unfinished(s', i, c) <==> Unfinished(s, i, c);
    assert forall i: nat, c :: Undeleted(s', i, c) <==> Undeleted(s, i, c);
    assert forall u: nat, c :: ArmedFor(s', u, c) <==> ArmedFor(s, u, c) || (u == t && c == d);
    assert forall c :: EntryExpired(s', c) ==> EntryExpired(s, c);
  }

  lemma CoalescedQuiet(s: State, e: Event)
    requires Inv(s) && Enabled(s, e) && Coalesced(s) && !e.Act? && !e.Fire?
    ensures Coalesced(Apply(s, e))
  {
    var s' := Apply(s, e);
    assert forall t: nat, d :: ArmedFor(s', t, d) <==> ArmedFor(s, t, d);
    assert forall i: nat, d :: Unfinished(s', i, d) ==> Unfinished(s, i, d);
    assert forall i: nat, d :: Undeleted(s, i, d) ==> Undeleted(s', i, d);
    assert forall d :: EntryExpired(s', d) <==> EntryExpired(s, d);
  }

  lemma CoalescedKept(s: State, e: Event)
    requires Inv(s) && Enabled(s, e) && Coalesced(s) && !Overtakes(s, e)
    ensures Coalesced(Apply(s, e))
  {
    hide Inv, Coalesced, Overtakes;
    if e.Fire? {
      CoalescedFire(s, e.timer);
    } else if e.Act? && s.threads[e.thread].job == Callback {
      CoalescedCallback(s, e.thread);
    } else if e.Act? {
      CoalescedHook(s, e.thread);
    } else {
      CoalescedQuiet(s, e);
    }
  }

  lemma OvertakingSplits(s: State, e: Event)
    requires Inv(s) && Enabled(s, e) && Overtakes(s, e)
    ensures TwoPending(Apply(s, e))
  {
    var d := s.threads[e.thread].domain;
    var i: nat :| Unfinished(s, i, d);
    var t := if d in s.byDomain then s.byDomain[d] else |s.timers|;
    assert ArmedFor(Apply(s, e), t, d) && Unfinished(Apply(s, e), i, d);
  }

  lemma {:induction false} CoalescedAlong(states: seq<State>, events: seq<Event>, k: nat)
    requires IsRun(Taken, states, events) && Inv(states[0]) && Coalesced(states[0]) && k <= |events|
    requires forall j :: 0 <= j < k ==> !Overtakes(states[j], events[j])
    ensures Coalesced(states[k])
  {
    if k > 0 {
      CoalescedAlong(states, events, k - 1);
      InvAlong(states, events, k - 1);
      assert Taken(states[k - 1], events[k - 1], states[k]);
      CoalescedKept(states[k - 1], events[k - 1]);
    }
  }

  /** A run keeps at most one sync per domain under way or on its way throughout if and only if no hook ever touches its
      timer while a callback of its domain is unfinished. */
  lemma CoalescesIffNeverOvertaken(states: seq<State>, events: seq<Event>)
    requires IsRun(Taken, states, events) && Inv(states[0]) && Coalesced(states[0])
    ensures (exists k :: 0 <= k < |states| && TwoPending(states[k]))
       <==> (exists k :: 0 <= k < |events| && Overtakes(states[k], events[k]))
  {
    if k :| 0 <= k < |events| && Overtakes(states[k], events[k]) {
      InvAlong(states, events, k);
      assert Taken(states[k], events[k], states[k + 1]);
      OvertakingSplits(states[k], events[k]);
    } else {
      forall k | 0 <= k < |states|
        ensures !TwoPending(states[k])
      {
        CoalescedAlong(states, events, k);
      }
    }
  }

  // ---- two runs that do not coalesce -----------------------------------

  /** The run goes on from its last state through one more event. */
  lemma Then(states: seq<State>, events: seq<Event>, e: Event) returns (more: seq<State>, evs: seq<Event>)
    requires IsRun(Taken, states, events) && Inv(states[|events|]) && Enabled(states[|events|], e)
    ensures IsRun(Taken, more, evs) && |more| == |evs| + 1 && evs == events + [e] && more[0] == states[0]
    ensures more[|evs|] == Apply(states[|events|], e) && Inv(more[|evs|])
  {
    hide Apply, Inv;
    InvIndexed(states[|events|]);
    more, evs := states + [Apply(states[|events|], e)], events + [e];
    Extended(Taken, states, events, e, Apply(states[|events|], e));
    InvKept(states[|events|], e);
  }

  /** A thread that is waiting while the mutex is free goes through its critical section. */
  lemma ThenThrough(states: seq<State>, events: seq<Event>, i: nat) returns (more: seq<State>, evs: seq<Event>)
    requires IsRun(Taken, states, events) && |states| == |events| + 1 && Inv(states[|events|])
    requires Enabled(states[|events|], Acquire(i))
    ensures IsRun(Taken, more, evs) && |more| == |evs| + 1 && Inv(more[|evs|]) && more[0] == states[0]
    ensures evs == events + [Acquire(i), Act(i), Release(i)]
    ensures var s, t := states[|events|], more[|evs|];
            var d, hook := s.threads[i].domain, s.threads[i].job == Hook;
            && t.owner == None
            && t.threads == s.threads[i := Thread(s.threads[i].job, d, if hook then Finished else Unlocked)]
            && (d in s.byDomain ==> s.byDomain[d] < |s.timers|)
            && t.timers == (if hook then ResetOrArm(s, d).timers else s.timers)
            && t.byDomain == (if hook then ResetOrArm(s, d).byDomain else s.byDomain - {d})
  {
    hide Inv, IsRun;
    InvIndexed(states[|events|]);
    more, evs := Then(states, events, Acquire(i));
    more, evs := Then(more, evs, Act(i));
    more, evs := Then(more, evs, Release(i));
  }

  lemma Started()
    ensures Inv(INIT) && IsRun(Taken, [INIT], [])
  {
  }

  /** The first edit of a domain arms its timer, and the timer expires. */
  lemma EditExpires(d: string) returns (states: seq<State>, events: seq<Event>)
    ensures IsRun(Taken, states, events) && |states| == |events| + 1 && states[0] == INIT && Inv(states[|events|])
    ensures events == [Write(d), Acquire(0), Act(0), Release(0), Fire(0)]
    ensures var s := states[|events|];
            && s.owner == None && s.timers == [Timer(d, false)] && s.byDomain == map[d := 0]
            && s.threads == [Thread(Hook, d, Finished), Thread(Callback, d, Waiting)]
  {
    hide Inv, IsRun;
    Started();
    states, events := Then([INIT], [], Write(d));
    states, events := ThenThrough(states, events, 0);
    states, events := Then(states, events, Fire(0));
  }

  /** A second edit whose hook beats the callback to the mutex resets the expired timer. */
  lemma ExpiredTimerReset(d: string) returns (states: seq<State>, events: seq<Event>)
    ensures IsRun(Taken, states, events) && |states| == |events| + 1 && states[0] == INIT
    ensures events == [Write(d), Acquire(0), Act(0), Release(0), Fire(0), Write(d), Acquire(2), Act(2), Release(2)]
    ensures TwoPending(states[|events|])
  {
    hide Inv, IsRun;
    states, events := EditExpires(d);
    states, events := Then(states, events, Write(d));
    states, events := ThenThrough(states, events, 2);
    assert ArmedFor(states[|events|], 0, d) && Unfinished(states[|events|], 1, d);
  }

  lemma EditedTwice(d: string) returns (states: seq<State>, events: seq<Event>)
    ensures IsRun(Taken, states, events) && |states| == |events| + 1 && states[0] == INIT && Inv(states[|events|])
    ensures events == [Write(d), Acquire(0), Act(0), Release(0), Fire(0), Acquire(1), Act(1), Release(1),
                       Write(d), Acquire(2), Act(2), Release(2)]
    ensures var s := states[|events|];
            && s.owner == None && s.timers == [Timer(d, false), Timer(d, true)]
            && s.threads == [Thread(Hook, d, Finished), Thread(Callback, d, Unlocked), Thread(Hook, d, Finished)]
  {
    hide Inv, IsRun;
    states, events := EditExpires(d);
    states, events := ThenThrough(states, events, 1);
    states, events := Then(states, events, Write(d));
    states, events := ThenThrough(states, events, 2);
  }

  /** An edit while the first sync is still running leads to a second one beside it. */
  lemma SyncsOverlap(d: string) returns (states: seq<State>, events: seq<Event>)
    ensures IsRun(Taken, states, events) && |states| == |events| + 1 && states[0] == INIT
    ensures events == [Write(d), Acquire(0), Act(0), Release(0), Fire(0), Acquire(1), Act(1), Release(1), StartCheck(1),
                       Write(d), Acquire(2), Act(2), Release(2), Fire(1), Acquire(3), Act(3), Release(3), StartCheck(3)]
    ensures TwoPending(states[|events|])
    ensures InPhase(states[|events|], 1, Syncing) && InPhase(states[|events|], 3, Syncing)
  {
    hide Inv, IsRun;
    states, events := EditedWhileSyncing(d);
    states, events := Then(states, events, Fire(1));
    states, events := ThenThrough(states, events, 3);
    states, events := Then(states, events, StartCheck(3));
    assert Unfinished(states[|events|], 1, d) && Unfinished(states[|events|], 3, d);
  }

  lemma FirstSync(d: string) returns (states: seq<State>, events: seq<Event>)
    ensures IsRun(Taken, states, events) && |states| == |events| + 1 && states[0] == INIT && Inv(states[|events|])
    ensures events == [Write(d), Acquire(0), Act(0), Release(0), Fire(0), Acquire(1), Act(1), Release(1), StartCheck(1)]
    ensures var s := states[|events|];
            && s.owner == None && s.timers == [Timer(d, false)] && s.byDomain == map[]
            && s.threads == [Thread(Hook, d, Finished), Thread(Callback, d, Syncing)]
  {
    hide Inv, IsRun;
    states, events := EditExpires(d);
    states, events := ThenThrough(states, events, 1);
    states, events := Then(states, events, StartCheck(1));
  }

  lemma EditedWhileSyncing(d: string) returns (states: seq<State>, events: seq<Event>)
    ensures IsRun(Taken, states, events) && |states| == |events| + 1 && states[0] == INIT && Inv(states[|events|])
    ensures events == [Write(d), Acquire(0), Act(0), Release(0), Fire(0), Acquire(1), Act(1), Release(1), StartCheck(1),
                       Write(d), Acquire(2), Act(2), Release(2)]
    ensures var s := states[|events|];
            && s.owner == None && s.timers == [Timer(d, false), Timer(d, true)]
            && s.threads == [Thread(Hook, d, Finished), Thread(Callback, d, Syncing), Thread(Hook, d, Finished)]
  {
    hide Inv, IsRun;
    states, events := FirstSync(d);
    states, events := Then(states, events, Write(d));
    states, events := ThenThrough(states, events, 2);
  }

  /** A second edit after the callback has left its critical section arms a fresh timer; when that one expires too,
      two callbacks are about to start their checks at once. */
  lemma FreshTimerRaces(d: string) returns (states: seq<State>, events: seq<Event>)
    ensures IsRun(Taken, states, events) && |states| == |events| + 1 && states[0] == INIT
    ensures events == [Write(d), Acquire(0), Act(0), Release(0), Fire(0), Acquire(1), Act(1), Release(1),
                       Write(d), Acquire(2), Act(2), Release(2), Fire(1), Acquire(3), Act(3), Release(3)]
    ensures TwoPending(states[|events|])
    ensures InPhase(states[|events|], 1, Unlocked) && InPhase(states[|events|], 3, Unlocked)
  {
    hide Inv, IsRun;
    states, events := EditedTwice(d);
    states, events := Then(states, events, Fire(1));
    states, events := ThenThrough(states, events, 3);
    assert Unfinished(states[|events|], 1, d) && Unfinished(states[|events|], 3, d);
  }

  // ---- the shared objects the goroutines work on -----------------------

  /** The hook's closure state; each method is one atomic action. */
  class SyncHook {
    var owner: Option<nat>
    var timersByDomain: map<string, nat>
    var timers: seq<Timer>
    var threads: seq<Thread>
    var clock: nat
    var lastEdit: map<string, nat>
    var lastCheck: map<string, nat>

    function Snapshot(): State
      reads this
    {
      State(owner, timersByDomain, timers, threads, clock, lastEdit, lastCheck)
    }

    constructor ()
      ensures Snapshot() == INIT && Inv(Snapshot()) && Coalesced(Snapshot())
    {
      owner, timersByDomain, timers, threads := None, map[], [], [];
      clock, lastEdit, lastCheck := 0, map[], map[];
    }

    /** A record of `domain` is written and the hook's goroutine is started. */
    method EditRecord(domain: string)
      requires Inv(Snapshot())
      modifies this
      ensures Snapshot() == Apply(old(Snapshot()), Write(domain)) && Inv(Snapshot())
    {
      InvKept(Snapshot(), Write(domain));
      lastEdit := lastEdit[domain := clock];
      clock := clock + 1;
      threads := threads + [Thread(Hook, domain, Waiting)];
    }

    method Lock(i: nat)
      requires Inv(Snapshot()) && Enabled(Snapshot(), Acquire(i))
      modifies this
      ensures Snapshot() == Apply(old(Snapshot()), Acquire(i)) && Inv(Snapshot())
    {
      InvKept(Snapshot(), Acquire(i));
      owner := Some(i);
      threads := threads[i := threads[i].(phase := Holding)];
    }

    /** The body of the critical section, of either kind of goroutine. */
    method TouchMap(i: nat)
      requires Inv(Snapshot()) && Enabled(Snapshot(), Act(i))
      modifies this
      ensures Snapshot() == Apply(old(Snapshot()), Act(i)) && Inv(Snapshot())
    {
      InvKept(Snapshot(), Act(i));
      var domain := threads[i].domain;
      if threads[i].job == Callback {
        timersByDomain := timersByDomain - {domain};
      } else if domain in timersByDomain {
        var t := timersByDomain[domain];
        timers := timers[t := timers[t].(armed := true)];
      } else {
        timersByDomain := timersByDomain[domain := |timers|];
        timers := timers + [Timer(domain, true)];
      }
      threads := threads[i := threads[i].(phase := Acted)];
    }

    method Unlock(i: nat)
      requires Inv(Snapshot()) && Enabled(Snapshot(), Release(i))
      modifies this
      ensures Snapshot() == Apply(old(Snapshot()), Release(i)) && Inv(Snapshot())
    {
      InvKept(Snapshot(), Release(i));
      owner := None;
      threads := threads[i := threads[i].(phase := if threads[i].job == Hook then Finished else Unlocked)];
    }

    method Expire(t: nat)
      requires Inv(Snapshot()) && Enabled(Snapshot(), Fire(t))
      modifies this
      ensures Snapshot() == Apply(old(Snapshot()), Fire(t)) && Inv(Snapshot())
    {
      InvKept(Snapshot(), Fire(t));
      threads := threads + [Thread(Callback, timers[t].domain, Waiting)];
      timers := timers[t := timers[t].(armed := false)];
    }

    /** The check starts, and with it the detached sync. */
    method Check(i: nat)
      requires Inv(Snapshot()) && Enabled(Snapshot(), StartCheck(i))
      modifies this
      ensures Snapshot() == Apply(old(Snapshot()), StartCheck(i)) && Inv(Snapshot())
    {
      InvKept(Snapshot(), StartCheck(i));
      lastCheck := lastCheck[threads[i].domain := clock];
      clock := clock + 1;
      threads := threads[i := threads[i].(phase := Syncing)];
    }

    method EndSync(i: nat)
      requires Inv(Snapshot()) && Enabled(Snapshot(), FinishSync(i))
      modifies this
      ensures Snapshot() == Apply(old(Snapshot()), FinishSync(i)) && Inv(Snapshot())
    {
      InvKept(Snapshot(), FinishSync(i));
      threads := threads[i := threads[i].(phase := Finished)];
    }

    method Perform(e: Event)
      requires Inv(Snapshot()) && Enabled(Snapshot(), e)
      modifies this
      ensures Snapshot() == Apply(old(Snapshot()), e) && Inv(Snapshot())
    {
      match e
      case Write(d) => EditRecord(d);
      case Acquire(i) => Lock(i);
      case Act(i) => TouchMap(i);
      case Release(i) => Unlock(i);
      case Fire(t) => Expire(t);
      case StartCheck(i) => Check(i);
      case FinishSync(i) => EndSync(i);
    }

    /** Any schedule the goroutines may follow, up to its first step that is not enabled, is a run of the model: edited
        domains are never left without a later check or work on its way. */
    method Follow(schedule: seq<Event>) returns (done: nat, ghost states: seq<State>)
      requires Snapshot() == INIT
      modifies this
      ensures done <= |schedule| && IsRun(Taken, states, schedule[..done])
      ensures states[0] == INIT && states[done] == Snapshot()
      ensures done < |schedule| ==> !Enabled(Snapshot(), schedule[done])
      ensures forall d <- lastEdit :: Fresh(Snapshot(), d) || Pending(Snapshot(), d)
    {
      hide Apply, Enabled;
      done, states := 0, [INIT];
      while done < |schedule| && Enabled(Snapshot(), schedule[done])
        invariant done <= |schedule| && IsRun(Taken, states, schedule[..done])
        invariant states[0] == INIT && states[done] == Snapshot() && Inv(Snapshot())
      {
        Extended(Taken, states, schedule[..done], schedule[done], Apply(Snapshot(), schedule[done]));
        assert schedule[..done + 1] == schedule[..done] + [schedule[done]];
        Perform(schedule[done]);
        states := states + [Snapshot()];
        done := done + 1;
      }
      forall d <- lastEdit
        ensures Fresh(Snapshot(), d) || Pending(Snapshot(), d)
      {
        NoLostEdit(states, schedule[..done], done, d);
      }
    }
  }
}
