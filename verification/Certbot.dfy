/** Every certbot invocation of the panel goes through one mutex and a bounded retry loop. */
module Certbot {
  import opened Text
  import opened Options
  import opened Lists
  import opened Runs

  // ---- which failures are transient ------------------------------------

  const MARKERS: seq<string> := [
    "another instance of " + "certbot is already running",
    "connection reset by peer",
    "connection aborted",
    "connectionreseterror",
    "max retries exceeded",
    "connection refused",
    "temporary failure in name resolution",
    "timed out",
    "read timed out",
    "service temporarily unavailable",
    "the service is temporarily down"
  ]

  predicate Retryable(s: string) {
    exists m <- MARKERS :: Contains(ToLower(s), m)
  }

  method CertbotErrRetryable(s: string) returns (r: bool)
    ensures r == Retryable(s)
  {
    hide Contains, ToLower;
    var lower := ToLower(s);
    for i := 0 to |MARKERS|
      invariant forall j :: 0 <= j < i ==> !Contains(lower, MARKERS[j])
    {
      if Contains(lower, MARKERS[i]) {
        assert MARKERS[i] in MARKERS;
        return true;
      }
    }
    return false;
  }

  /** Neither the letter case of the message nor the text around the marker matters. */
  lemma RetryableAnywhere(before: string, s: string, after: string)
    ensures Retryable(ToLower(s)) == Retryable(s)
    ensures Retryable(s) ==> Retryable(before + s + after)
  {
    ToLowerIdempotent(s);
    if Retryable(s) {
      var m :| m in MARKERS && Contains(ToLower(s), m);
      ToLowerConcat(before + s, after);
      ToLowerConcat(before, s);
      ContainsInMiddle(ToLower(before), ToLower(s), ToLower(after), m);
    }
  }

  /** One run of certbot: success, or an error with the captured output and error text. */
  datatype Outcome = Succeeded | Failed(error: string, output: Option<(string, string)>)

  function Combined(o: Outcome): string
    requires o.Failed?
  {
    o.error + match o.output case None => "" case Some((out, err)) => " " + out + " " + err
  }

  predicate Transient(o: Outcome) {
    o.Failed? && Retryable(Combined(o))
  }

  // ---- one call --------------------------------------------------------

  const MAX_ATTEMPTS: nat := 6

  /** Seconds waited after the k-th attempt: doubling from 5 until 40 is reached. */
  function Backoff(k: nat): nat
    requires k >= 1
  {
    if k == 1 then 5 else if Backoff(k - 1) < 40 then 2 * Backoff(k - 1) else Backoff(k - 1)
  }

  /** Seconds of the first n waits. */
  function Waits(n: nat): nat {
    if n == 0 then 0 else Waits(n - 1) + Backoff(n)
  }

  datatype Result = Ok | Error(outcome: Outcome) | Cancelled

  /** What a call returns that stops after attempt `n`, which ended as `last`. */
  function Answer(last: Outcome, n: nat): Result {
    if last.Succeeded? then Ok
    else if Transient(last) && n < MAX_ATTEMPTS then Cancelled
    else Error(last)
  }

  /** What a finished call did: the outcomes of its attempts, what it returned, and the seconds it may have waited
      (an interrupted wait counts in full). */
  ghost predicate CallSpec(log: seq<Outcome>, result: Result, waited: nat) {
    && 1 <= |log| <= MAX_ATTEMPTS
    && (forall k :: 0 <= k < |log| - 1 ==> Transient(log[k]))
    && result == Answer(log[|log| - 1], |log|)
    && waited == Waits(if result == Cancelled then |log| else |log| - 1)
  }

  /** `outcomes(k)` is what the k-th attempt would do, `cancelled(k)` whether the caller gives up during the wait
      after it. */
  method RunCertbotLong(outcomes: nat -> Outcome, cancelled: nat -> bool) returns (log: seq<Outcome>,
                        result: Result, waited: nat)
    ensures CallSpec(log, result, waited)
    ensures forall k :: 0 <= k < |log| ==> log[k] == outcomes(k + 1)
    ensures result == Cancelled ==> cancelled(|log|)
    ensures forall k :: 1 <= k < |log| ==> !cancelled(k)
    ensures result.Error? && |log| < 6 ==> !MarkerIn(result.outcome)
  {
    hide MarkerIn, Mentioned, Retryable, Combined, Backoff, Waits;
    log, waited := [], 0;
    var backoff := 5;
    var attempt := 1;
    FirstWait();
    while attempt <= MAX_ATTEMPTS
      invariant 1 <= attempt <= MAX_ATTEMPTS && |log| == attempt - 1
      invariant backoff == Backoff(attempt) && waited == Waits(attempt - 1)
      invariant forall k :: 0 <= k < |log| ==> log[k] == outcomes(k + 1) && Transient(log[k])
      invariant forall k :: 1 <= k < attempt ==> !cancelled(k)
      decreases MAX_ATTEMPTS - attempt
    {
      NextWait(attempt);
      var o := outcomes(attempt);
      log := log + [o];
      if o.Succeeded? {
        return log, Ok, waited;
      }
      var transient := CertbotErrRetryable(Combined(o));
      if !transient || attempt == MAX_ATTEMPTS {
        Unmarked(o);
        return log, Error(o), waited;
      }
      waited := waited + backoff;
      if cancelled(attempt) {
        return log, Cancelled, waited;
      }
      if backoff < 40 {
        backoff := 2 * backoff;
      }
      attempt := attempt + 1;
    }
    assert false;
  }

  lemma FirstWait()
    ensures Backoff(1) == 5 && Waits(0) == 0
  {
  }

  lemma NextWait(k: nat)
    requires k >= 1
    ensures Waits(k) == Waits(k - 1) + Backoff(k)
    ensures Backoff(k + 1) == if Backoff(k) < 40 then 2 * Backoff(k) else Backoff(k)
  {
  }

  lemma {:induction false} WaitsMonotone(m: nat, n: nat)
    requires m <= n
    ensures Waits(m) <= Waits(n)
  {
    if m < n {
      WaitsMonotone(m, n - 1);
    }
  }

  /** At most six attempts and 115 seconds of waiting; after an attempt that failed for good there is no other; and
      the call succeeds exactly when its last attempt did. */
  lemma CallBounds(log: seq<Outcome>, result: Result, waited: nat)
    requires CallSpec(log, result, waited)
    ensures |log| <= 6 && waited <= 115
    ensures forall k :: 0 <= k < |log| && !Transient(log[k]) ==> k == |log| - 1
    ensures result == Ok <==> log[|log| - 1] == Succeeded
  {
    WaitsMonotone(if result == Cancelled then |log| else |log| - 1, 5);
    assert Backoff(2) == 10 && Backoff(3) == 20 && Backoff(4) == 40 && Backoff(5) == 40;
    assert Waits(2) == 15 && Waits(4) == 75;
  }

  // ---- the same rules on the texts themselves --------------------------

  /** Some marker stands in the text, in whatever case. */
  ghost predicate Mentioned(s: string) {
    exists m <- MARKERS :: Says(s, m)
  }

  /** Lowered already, and each with a t. */
  predicate IsMarker(k: nat) {
    k < |MARKERS| && Small(MARKERS[k]) && 't' in MARKERS[k]
  }

  lemma MarkersSmall()
    ensures forall m <- MARKERS :: Small(m) && 't' in m
  {
    hide Small;
    forall m <- MARKERS
      ensures Small(m) && 't' in m
    {
      var k :| 0 <= k < |MARKERS| && MARKERS[k] == m;
      EachMarker(k);
    }
  }

  lemma EachMarker(k: nat)
    requires k < |MARKERS|
    ensures IsMarker(k)
  {
    hide IsMarker, Small;
    if k == 0 {
      LockMarkerSmall();
    } else if k == 1 {
      PeerMarker();
    } else if k < 5 {
      ResetMarkers();
    } else if k < 7 {
      RefusedMarkers();
    } else if k < 9 {
      TimeoutMarkers();
    } else if k == 9 {
      UnavailableMarker();
    } else {
      DownMarker();
    }
  }

  lemma SmallConcat(a: string, b: string)
    requires Small(a) && Small(b)
    ensures Small(a + b)
  {
  }

  lemma PeerMarker()
    ensures IsMarker(1)
  {
    assert MARKERS[1][6] == 't';
  }

  lemma LockMarkerSmall()
    ensures IsMarker(0)
  {
    var front, back := "another instance of ", "certbot is already running";
    assert front[3] == 't';
    SmallConcat(front, back);
  }

  lemma ResetMarkers()
    ensures IsMarker(2) && IsMarker(3) && IsMarker(4)
  {
    assert MARKERS[2][6] == 't' && MARKERS[3][6] == 't' && MARKERS[4][6] == 't';
  }

  lemma RefusedMarkers()
    ensures IsMarker(5) && IsMarker(6)
  {
    assert MARKERS[5][6] == 't' && MARKERS[6][0] == 't';
  }

  lemma TimeoutMarkers()
    ensures IsMarker(7) && IsMarker(8)
  {
    assert MARKERS[7][0] == 't' && MARKERS[8][5] == 't';
  }

  lemma UnavailableMarker()
    ensures IsMarker(9)
  {
    assert MARKERS[9][8] == 't';
  }

  lemma DownMarker()
    ensures IsMarker(10)
  {
    assert MARKERS[10][0] == 't';
  }

  lemma RetryableIffMentioned(s: string)
    ensures Retryable(s) <==> Mentioned(s)
  {
    hide ToLower, Contains, Says;
    MarkersSmall();
    forall m <- MARKERS
      ensures Contains(ToLower(s), m) <==> Says(s, m)
    {
      SaysIff(s, m);
    }
  }

  lemma MentionedAround(a: string, s: string, b: string)
    requires Mentioned(s)
    ensures Mentioned(a + s + b)
  {
    hide Says;
    var m :| m in MARKERS && Says(s, m);
    SaysAround(a, s, b, m);
  }

  /** A marker in the error text, in the standard output or in the standard error makes a failure transient, in any
      case of its letters. */
  lemma TransientWherever(error: string, out: string, err: string)
    ensures Transient(Failed(error, None)) <==> Mentioned(error)
    ensures Mentioned(error) || Mentioned(out) || Mentioned(err) ==> Transient(Failed(error, Some((out, err))))
  {
    hide Mentioned, Retryable;
    RetryableIffMentioned(error);
    var all := error + " " + out + " " + err;
    RetryableIffMentioned(all);
    CombinedIs(error, out, err);
    if Mentioned(error) {
      MentionedAround("", error, " " + out + " " + err);
      assert "" + error + (" " + out + " " + err) == all;
    }
    if Mentioned(out) {
      MentionedAround(error + " ", out, " " + err);
      assert error + " " + out + (" " + err) == all;
    }
    if Mentioned(err) {
      MentionedAround(error + " " + out + " ", err, "");
      assert error + " " + out + " " + err + "" == all;
    }
  }

  lemma CombinedIs(error: string, out: string, err: string)
    ensures Combined(Failed(error, None)) == error
    ensures Combined(Failed(error, Some((out, err)))) == error + " " + out + " " + err
  {
    assert error + (" " + out + " " + err) == error + " " + out + " " + err;
  }

  /** A failure with a marker in any of its texts. */
  ghost predicate MarkerIn(o: Outcome) {
    && o.Failed?
    && (Mentioned(o.error) || (o.output.Some? && (Mentioned(o.output.value.0) || Mentioned(o.output.value.1))))
  }

  lemma MarkerTransient(o: Outcome)
    requires MarkerIn(o)
    ensures Transient(o)
  {
    hide Mentioned, Transient;
    match o.output
    case None => TransientWherever(o.error, "", "");
    case Some((out, err)) => TransientWherever(o.error, out, err);
  }

  lemma Unmarked(o: Outcome)
    ensures !Transient(o) ==> !MarkerIn(o)
  {
    hide Mentioned, Transient, MarkerIn;
    if MarkerIn(o) {
      MarkerTransient(o);
    }
  }

  /** A call whose failure has a marker in any of its texts is not given up before the sixth attempt: it returns that
      failure only then, and before that only when cancelled. The failure returned is the last attempt's. */
  lemma NeverGivesUpEarly(log: seq<Outcome>, result: Result, waited: nat)
    requires CallSpec(log, result, waited)
    ensures result.Error? ==> result.outcome == log[|log| - 1]
    ensures result.Error? && MarkerIn(result.outcome) ==> |log| == 6
    ensures MarkerIn(log[|log| - 1]) && |log| < 6 ==> result == Cancelled
  {
    hide Mentioned, Transient;
    if MarkerIn(log[|log| - 1]) {
      MarkerTransient(log[|log| - 1]);
    }
  }

  /** The seconds waited after each number of waits, an interrupted one counting in full. */
  lemma WaitsExactly(log: seq<Outcome>, result: Result, waited: nat)
    requires CallSpec(log, result, waited)
    ensures var waits := if result == Cancelled then |log| else |log| - 1;
            waits <= 5 && waited == [0, 5, 15, 35, 75, 115][waits]
  {
    hide Transient;
    assert Backoff(1) == 5 && Backoff(2) == 10 && Backoff(3) == 20 && Backoff(4) == 40 && Backoff(5) == 40;
    assert Waits(0) == 0 && Waits(1) == 5 && Waits(2) == 15 && Waits(3) == 35 && Waits(4) == 75 && Waits(5) == 115;
  }

  /** certbot's refusals: lock contention is ridden out, a failed challenge is final. */
  lemma RealFailures()
    ensures Retryable("Another instance of " + "Certbot is already running.")
    ensures !Retryable("Some challenges have failed.")
  {
    LockContention();
    var s := "Some challenges have failed.";
    assert 't' !in s && 'T' !in s;
    MarkersSmall();
    forall m <- MARKERS
      ensures !Contains(ToLower(s), m)
    {
      NoSuchLetter(s, m);
    }
  }

  /** The phrases that make a failure transient. */
  lemma TransientPhrases()
    ensures Retryable("another instance of " + "certbot is already running") && Retryable("connection reset by peer")
    ensures Retryable("connection aborted") && Retryable("connectionreseterror") && Retryable("max retries exceeded")
    ensures Retryable("connection refused") && Retryable("temporary failure in name resolution")
    ensures Retryable("timed out") && Retryable("read timed out") && Retryable("service temporarily unavailable")
    ensures Retryable("the service is temporarily down")
  {
    hide Retryable;
    forall k | 0 <= k < |MARKERS|
      ensures Retryable(MARKERS[k])
    {
      MarkerRetryable(MARKERS[k]);
    }
    assert MARKERS[0] == "another instance of " + "certbot is already running";
    assert MARKERS[1] == "connection reset by peer" && MARKERS[2] == "connection aborted";
    assert MARKERS[3] == "connectionreseterror" && MARKERS[4] == "max retries exceeded";
    assert MARKERS[5] == "connection refused" && MARKERS[6] == "temporary failure in name resolution";
    assert MARKERS[7] == "timed out" && MARKERS[8] == "read timed out";
    assert MARKERS[9] == "service temporarily unavailable" && MARKERS[10] == "the service is temporarily down";
  }

  lemma MarkerRetryable(m: string)
    requires m in MARKERS
    ensures Retryable(m)
  {
    hide Retryable;
    assert m[0..0 + |m|] == m;
    assert SaysAt(m, m, 0);
    MentionedMarker(m, m);
    RetryableIffMentioned(m);
  }

  lemma LockContention()
    ensures Retryable("Another instance of " + "Certbot is already running.")
  {
    hide ToLower, Contains, Retryable, Mentioned;
    var rest, tail := "nother instance of ", "ertbot is already running";
    LockMessage(rest, tail);
    LockMarker(rest, tail);
    var s, m := "A" + rest + ("C" + tail + "."), "a" + rest + ("c" + tail);
    LockPhrase(rest, tail);
    MentionedMarker(s, m);
    RetryableIffMentioned(s);
  }

  lemma LockMessage(rest: string, tail: string)
    requires rest == "nother instance of " && tail == "ertbot is already running"
    ensures "Another instance of " + "Certbot is already running." == "A" + rest + ("C" + tail + ".")
  {
    assert "Another instance of " == "A" + rest && "Certbot is already running." == "C" + tail + ".";
  }

  lemma LockMarker(rest: string, tail: string)
    requires rest == "nother instance of " && tail == "ertbot is already running"
    ensures "a" + rest + ("c" + tail) in MARKERS
  {
    assert "another instance of " == "a" + rest && "certbot is already running" == "c" + tail;
    assert MARKERS[0] == "a" + rest + ("c" + tail);
  }

  lemma MentionedMarker(s: string, m: string)
    requires m in MARKERS && Says(s, m)
    ensures Mentioned(s)
  {
  }

  lemma LockPhrase(rest: string, tail: string)
    ensures Says("A" + rest + ("C" + tail + "."), "a" + rest + ("c" + tail))
  {
    var s, m := "A" + rest + ("C" + tail + "."), "a" + rest + ("c" + tail);
    assert s[0..0 + |m|] == "A" + rest + ("C" + tail);
    assert SaysAt(s, m, 0);
  }

  lemma PrefixChar(m: string, s: string, k: nat)
    requires k < |m|
    ensures m <= s ==> k < |s| && s[k] == m[k]
  {
  }

  lemma NoSuchLetter(s: string, m: string)
    requires 't' !in s && 'T' !in s && 't' in m
    ensures !Contains(ToLower(s), m)
  {
    var lower := ToLower(s);
    var k :| 0 <= k < |m| && m[k] == 't';
    IndexFirst(lower, m);
    forall i | 0 <= i < |s|
      ensures lower[i] != 't'
    {
      LowerCharSame(s[i], 't');
    }
    forall j | 0 <= j <= |lower|
      ensures !(m <= lower[j..])
    {
      PrefixChar(m, lower[j..], k);
    }
  }

  // ---- many callers ----------------------------------------------------

  /** Where a caller is: queueing for the mutex, running certbot, waiting out a transient failure, returned. */
  datatype Phase = Queued | Running | Sleeping | Returned(result: Result)

  datatype Caller = Caller(phase: Phase, log: seq<Outcome>, waited: nat)

  datatype State = State(owner: Option<nat>, callers: seq<Caller>)

  const INIT := State(None, [])

  datatype Event =
    | Call
    | Lock(caller: nat)
    | Exit(caller: nat, outcome: Outcome)
    | Wake(caller: nat)
    | GiveUp(caller: nat)

  predicate At(s: State, i: nat, p: Phase) {
    i < |s.callers| && s.callers[i].phase == p
  }

  predicate Enabled(s: State, e: Event) {
    match e
    case Call => true
    case Lock(i) => At(s, i, Queued) && s.owner == None
    case Exit(i, _) => At(s, i, Running)
    case Wake(i) => At(s, i, Sleeping)
    case GiveUp(i) => At(s, i, Sleeping)
  }

  function With(s: State, i: nat, c: Caller): State
    requires i < |s.callers|
  {
    s.(callers := s.callers[i := c])
  }

  /** The deferred unlock runs on every return. */
  function Return(s: State, i: nat, c: Caller, r: Result): State
    requires i < |s.callers|
  {
    With(s, i, c.(phase := Returned(r))).(owner := None)
  }

  function Apply(s: State, e: Event): State
    requires Enabled(s, e)
  {
    match e
    case Call => s.(callers := s.callers + [Caller(Queued, [], 0)])
    case Lock(i) => With(s, i, s.callers[i].(phase := Running)).(owner := Some(i))
    case Exit(i, o) =>
      var c := s.callers[i].(log := s.callers[i].log + [o]);
      if o.Succeeded? then Return(s, i, c, Ok)
      else if !Retryable(Combined(o)) || |c.log| == MAX_ATTEMPTS then Return(s, i, c, Error(o))
      else With(s, i, c.(phase := Sleeping, waited := c.waited + Backoff(|c.log|)))
    case Wake(i) => With(s, i, s.callers[i].(phase := Running))
    case GiveUp(i) => Return(s, i, s.callers[i], Cancelled)
  }

  ghost predicate CallerOk(c: Caller) {
    match c.phase
    case Queued => c.log == [] && c.waited == 0
    case Running => AllTransient(c.log) && |c.log| < MAX_ATTEMPTS && c.waited == Waits(|c.log|)
    case Sleeping => AllTransient(c.log) && 1 <= |c.log| < MAX_ATTEMPTS && c.waited == Waits(|c.log|)
    case Returned(r) => CallSpec(c.log, r, c.waited)
  }

  predicate AllTransient(log: seq<Outcome>) {
    forall k :: 0 <= k < |log| ==> Transient(log[k])
  }

  predicate Inside(s: State, i: nat) {
    At(s, i, Running) || At(s, i, Sleeping)
  }

  /** The mutex is held exactly by the one caller between its first attempt and its return. */
  ghost predicate Inv(s: State) {
    && (forall i :: 0 <= i < |s.callers| ==> CallerOk(s.callers[i]))
    && (forall i: nat :: Inside(s, i) <==> s.owner == Some(i))
  }

  lemma ExitKeeps(c: Caller, o: Outcome)
    requires CallerOk(c) && c.phase == Running
    ensures var d := c.(log := c.log + [o]);
            CallerOk(if o.Succeeded? then d.(phase := Returned(Ok))
                     else if !Retryable(Combined(o)) || |d.log| == MAX_ATTEMPTS then d.(phase := Returned(Error(o)))
                     else d.(phase := Sleeping, waited := d.waited + Backoff(|d.log|)))
  {
    hide Retryable, Combined, Backoff;
    var log := c.log + [o];
    assert forall k :: 0 <= k < |c.log| ==> log[k] == c.log[k];
  }

  lemma GiveUpKeeps(c: Caller)
    requires CallerOk(c) && c.phase == Sleeping
    ensures CallerOk(c.(phase := Returned(Cancelled)))
  {
    hide Retryable, Combined, Backoff;
  }

  lemma InvKept(s: State, e: Event)
    requires Inv(s) && Enabled(s, e)
    ensures Inv(Apply(s, e))
  {
    hide Retryable, Combined, Backoff, CallSpec, Transient;
    var s' := Apply(s, e);
    match e
    case Call =>
      assert forall i: nat :: Inside(s', i) <==> Inside(s, i);
    case Lock(i) =>
      assert forall j: nat :: j != i ==> (Inside(s', j) <==> Inside(s, j));
      assert AllTransient([]);
    case Exit(i, o) =>
      ExitKeeps(s.callers[i], o);
      assert Inside(s, i);
      assert forall j: nat :: j != i ==> (Inside(s', j) <==> Inside(s, j));
    case Wake(i) =>
      assert forall j: nat :: Inside(s', j) <==> Inside(s, j);
    case GiveUp(i) =>
      GiveUpKeeps(s.callers[i]);
      assert Inside(s, i);
      assert forall j: nat :: j != i ==> (Inside(s', j) <==> Inside(s, j));
  }

  ghost predicate Taken(s: State, e: Event, s': State) {
    Enabled(s, e) && s' == Apply(s, e)
  }

  lemma InvAlong(states: seq<State>, events: seq<Event>, k: nat)
    requires IsRun(Taken, states, events) && Inv(states[0]) && k < |states|
    ensures Inv(states[k])
  {
    hide Inv;
    forall s, e, s' | Inv(s) && Taken(s, e, s')
      ensures Inv(s')
    {
      InvKept(s, e);
    }
    Along(Taken, Inv, states, events, k);
  }

  /** In every interleaving of any number of callers: at most one certbot runs at a time, every finished call obeyed
      the retry rules and no longer holds the mutex, and once all calls have returned the mutex is free. */
  lemma OneCertbotAtATime(states: seq<State>, events: seq<Event>, k: nat, i: nat, j: nat)
    requires IsRun(Taken, states, events) && states[0] == INIT && k < |states|
    ensures At(states[k], i, Running) && At(states[k], j, Running) ==> i == j
    ensures i < |states[k].callers| && states[k].callers[i].phase.Returned? ==>
              && CallSpec(states[k].callers[i].log, states[k].callers[i].phase.result, states[k].callers[i].waited)
              && states[k].owner != Some(i)
    ensures (forall c <- states[k].callers :: c.phase.Returned?) ==> states[k].owner == None
  {
    InvAlong(states, events, k);
    var s := states[k];
    if s.owner.Some? {
      assert Inside(s, s.owner.value);
      assert s.callers[s.owner.value] in s.callers;
    }
    assert Inside(s, i) <==> s.owner == Some(i);
    assert Inside(s, j) <==> s.owner == Some(j);
  }

  // ---- every call returns ----------------------------------------------

  function CallerWeight(c: Caller): nat {
    match c.phase
    case Queued => 13
    case Running => if |c.log| < MAX_ATTEMPTS then 2 * (MAX_ATTEMPTS - |c.log|) else 0
    case Sleeping => if |c.log| < MAX_ATTEMPTS then 2 * (MAX_ATTEMPTS - |c.log|) + 1 else 0
    case Returned(_) => 0
  }

  function Weight(s: State): nat {
    Sum(CallerWeight, s.callers)
  }

  lemma StepShrinks(s: State, e: Event)
    requires Inv(s) && Enabled(s, e) && !e.Call?
    ensures Weight(Apply(s, e)) < Weight(s)
  {
    hide CallSpec, Retryable, Combined, Backoff;
    var i := e.caller;
    SumUpdate(CallerWeight, s.callers, i, Apply(s, e).callers[i]);
    assert CallerOk(s.callers[i]);
  }

  /** Nothing but a new call can happen. */
  ghost predicate Ended(s: State) {
    forall e: Event :: !e.Call? ==> !Enabled(s, e)
  }

  /** A step other than a new call. */
  ghost predicate InnerStep(s: State, e: Event, s': State) {
    Taken(s, e, s') && !e.Call?
  }

  /** With no new calls every schedule ends, and it ends with every call returned: no caller is starved or stuck. */
  lemma EveryCallReturns(states: seq<State>, events: seq<Event>)
    requires IsRun(Taken, states, events) && Inv(states[0])
    requires forall j :: 0 <= j < |events| ==> !events[j].Call?
    ensures |events| <= Weight(states[0])
    ensures Ended(states[|events|]) ==> forall c <- states[|events|].callers :: c.phase.Returned?
  {
    var s := states[|events|];
    hide Inv, Weight;
    forall t, e, t' | Inv(t) && InnerStep(t, e, t')
      ensures Inv(t') && Weight(t') < Weight(t)
    {
      InvKept(t, e);
      StepShrinks(t, e);
    }
    forall k | 0 <= k < |events|
      ensures InnerStep(states[k], events[k], states[k + 1])
    {
      assert Taken(states[k], events[k], states[k + 1]);
    }
    Shrinks(InnerStep, Inv, Weight, states, events, |events|);
    if Ended(s) {
      forall i | 0 <= i < |s.callers|
        ensures s.callers[i].phase.Returned?
      {
        HolderMoves(s);
        assert !Enabled(s, Lock(i)) && !Enabled(s, Exit(i, Succeeded)) && !Enabled(s, Wake(i));
      }
    }
  }

  /** Whoever holds the mutex can always take a step. */
  lemma HolderMoves(s: State)
    requires Inv(s)
    ensures s.owner.Some? ==> Enabled(s, Exit(s.owner.value, Succeeded)) || Enabled(s, Wake(s.owner.value))
  {
    if s.owner.Some? {
      assert Inside(s, s.owner.value);
    }
  }
}
