/** How often a channel is called for one delivery, as a function of the sweeps the row meets. */
module DeliveryBounds {
  import opened DeliveryProtocol

  ghost predicate ReachedCalls(channel: Channel, sweeps: nat, n: nat) {
    exists d :: Reached(channel, sweeps, d) && n <= d.calls
  }

  lemma ReachedByCall(channel: Channel, sweeps: nat, d: Delivery, attempt: nat, call: Call)
    requires Reached(channel, sweeps, d) && attempt in d.tasks && call in channel
    ensures Reached(channel, sweeps, AfterTask(d, attempt, Called(call)))
  {
    ReachedNext(channel, sweeps, d, Execute(attempt, Called(call)));
  }

  // ---- Failing, again and again ----

  predicate IsReady(d: Delivery, count: nat) {
    0 in d.tasks && d.retryCount == count
  }

  function CountAfter(call: Call, count: nat): nat {
    if call.counted then count + 1 else count
  }

  /** The row is left FAILED, by the task or by the callback. */
  predicate Refails(call: Call, count: nat) {
    !IsFinal(call) && (IsRetried(call) && call.mark != MarkedFailed ==> RETRY_BELOW <= CountAfter(call, count))
  }

  /** The call fails, its callback if any reports a failure, and the sweep queues the next task. */
  function Round(d: Delivery, call: Call): Delivery {
    Next(Next(Next(d, Execute(0, Called(call))), Callback(ReportsUnsent)), Sweep)
  }

  lemma FailedOrAwaited(d: Delivery, call: Call, count: nat)
    requires IsReady(d, count) && Refails(call, count)
    ensures var e := Next(d, Execute(0, Called(call)));
            && e.retryCount == CountAfter(call, count) && e.calls == d.calls + 1 && e.sweepsLeft == d.sweepsLeft
            && (e.status == Failed || e.awaited > 0)
  {}

  lemma RoundIsReady(channel: Channel, sweeps: nat, d: Delivery, call: Call, count: nat)
    requires Reached(channel, sweeps, d) && call in channel && IsReady(d, count) && Refails(call, count)
    requires CountAfter(call, count) < SWEEP_BELOW && 0 < d.sweepsLeft
    ensures IsReady(Round(d, call), CountAfter(call, count)) && Round(d, call).calls == d.calls + 1
    ensures Round(d, call).sweepsLeft == d.sweepsLeft - 1 && Reached(channel, sweeps, Round(d, call))
  {
    var e := Next(d, Execute(0, Called(call)));
    FailedOrAwaited(d, call, count);
    ReachedNext(channel, sweeps, d, Execute(0, Called(call)));
    ReachedNext(channel, sweeps, e, Callback(ReportsUnsent));
    ReachedNext(channel, sweeps, Next(e, Callback(ReportsUnsent)), Sweep);
  }

  /** One call, and one more for each of `k` sweeps. */
  lemma {:induction false} FailingRounds(channel: Channel, sweeps: nat, d: Delivery, call: Call, count: nat, k: nat)
    requires Reached(channel, sweeps, d) && call in channel && IsReady(d, count) && Refails(call, count)
    requires k <= d.sweepsLeft && (if call.counted then count + k else count) < SWEEP_BELOW
    ensures ReachedCalls(channel, sweeps, d.calls + k + 1)
    decreases k
  {
    if k == 0 {
      ReachedByCall(channel, sweeps, d, 0, call);
      assert AfterTask(d, 0, Called(call)).calls == d.calls + 1;
    } else {
      RoundIsReady(channel, sweeps, d, call, count);
      FailingRounds(channel, sweeps, Round(d, call), call, CountAfter(call, count), k - 1);
    }
  }

  // ---- The three channels ----

  /** An in-app notification is marked SENT, unless saving that fails. */
  ghost const IN_APP: Channel := iset{Returned(false, true, MarkedSent, true), Raised(false, false, Kept, false)}

  /** An e-mail is sent, or not, or sent and then marked FAILED because a row written after it was not saved. */
  ghost const EMAIL: Channel := iset{
    Returned(true, true, MarkedSent, true),
    Returned(true, false, MarkedFailed, false),
    Returned(true, true, MarkedFailed, false)
  }

  /** A message is handed over, or not, or handed over and then marked FAILED in the same way. */
  ghost const TELEGRAM: Channel := iset{
    HandedOver(false, Kept, true),
    Returned(true, false, MarkedFailed, false),
    HandedOver(true, MarkedFailed, false)
  }

  /** An in-app delivery gets a call, and one more a sweep: a save that fails is not counted. */
  lemma InAppCalls(sweeps: nat, n: nat)
    ensures CallsAtMost(IN_APP, sweeps, n) <==> sweeps + 1 <= n
  {
    ReachedFresh(IN_APP, sweeps);
    FailingRounds(IN_APP, sweeps, Fresh(sweeps), Raised(false, false, Kept, false), 0, sweeps);
    OneCallASweepAtMost(IN_APP, sweeps, 0);
  }

  lemma CountedCallsAreFive(channel: Channel, sweeps: nat)
    requires CountsCalls(channel) && NeverEarly(channel)
    ensures CallsAtMost(channel, sweeps, 5)
  {
    forall d | Reached(channel, sweeps, d) ensures d.calls <= 5 {
      var steps :| IsOver(channel, steps) && End(Fresh(sweeps), steps) == d;
      OneAtATimeOverRun(channel, sweeps, steps);
    }
  }

  /** An e-mail delivery gets a call, and one more a sweep, up to five. */
  lemma EmailCalls(sweeps: nat, n: nat)
    ensures CallsAtMost(EMAIL, sweeps, n) <==> (if sweeps < 4 then sweeps + 1 else 5) <= n
  {
    var most := if sweeps < 4 then sweeps + 1 else 5;
    assert ReachedCalls(EMAIL, sweeps, most) by {
      ReachedFresh(EMAIL, sweeps);
      FailingRounds(EMAIL, sweeps, Fresh(sweeps), Returned(true, false, MarkedFailed, false), 0, most - 1);
    }
    OneCallASweepAtMost(EMAIL, sweeps, 0);
    CountedCallsAreFive(EMAIL, sweeps);
  }

  /** A Telegram delivery gets a call, and one more a sweep; so it exceeds five exactly with five sweeps or more. */
  lemma TelegramCalls(sweeps: nat, n: nat)
    ensures CallsAtMost(TELEGRAM, sweeps, n) <==> sweeps + 1 <= n
    ensures CallsAtMost(TELEGRAM, sweeps, 5) <==> sweeps < 5
  {
    ReachedFresh(TELEGRAM, sweeps);
    FailingRounds(TELEGRAM, sweeps, Fresh(sweeps), HandedOver(false, Kept, true), 0, sweeps);
    OneCallASweepAtMost(TELEGRAM, sweeps, 0);
  }

  lemma {:induction false} SpacedTimes(times: seq<real>, gap: real, k: nat)
    requires forall i :: 0 < i < |times| ==> times[i - 1] + gap <= times[i]
    requires k < |times|
    ensures times[0] + k as real * gap <= times[k]
  {
    if k > 0 {
      SpacedTimes(times, gap, k - 1);
      assert k as real * gap == (k - 1) as real * gap + gap;
    }
  }

  /** Sweeps come every six hours. Even spaced a little closer, no more than five find a row within its first day. */
  lemma FiveSweepsADay(created: real, times: seq<real>, gap: real)
    requires 24.0 < 5.0 * gap
    requires forall i :: 0 <= i < |times| ==> created <= times[i] <= created + 24.0
    requires forall i :: 0 < i < |times| ==> times[i - 1] + gap <= times[i]
    ensures |times| <= 5
  {
    if 5 < |times| {
      SpacedTimes(times, gap, 5);
      assert false;
    }
  }

  // ---- Bounds that no number of sweeps exceeds ----

  /** `count` calls made and counted, none awaited, tasks `extra` and a first attempt, sweeps to spare. */
  predicate Stands(d: Delivery, count: nat, extra: multiset<nat>, spare: nat) {
    && d.status == Pending && d.retryCount == d.calls == count && d.awaited == 0
    && d.tasks == extra + multiset{0} && spare <= d.sweepsLeft
  }

  /** One more call, and a second task queued beside the retry. */
  lemma FailRetryAndSweep(channel: Channel, sweeps: nat, d: Delivery, call: Call,
      count: nat, extra: multiset<nat>, spare: nat) returns (e: Delivery)
    requires call in channel && call.counted && call.Raised? && FailsEarly(call)
    requires Reached(channel, sweeps, d) && Stands(d, count, extra, spare) && count < 4 && 0 < spare
    ensures Reached(channel, sweeps, e)
    ensures Stands(e, count + 1, extra + (if count < 2 then multiset{1} else multiset{}), spare - 1)
  {
    var retry := if count < 2 then multiset{1} else multiset{};
    ReachedByCall(channel, sweeps, d, 0, call);
    var after := AfterTask(d, 0, Called(call));
    assert after.tasks == extra + retry && after.status == Failed by {
      assert d.tasks - multiset{0} == extra;
    }
    ReachedNext(channel, sweeps, after, Sweep);
    e := Swept(after);
  }

  lemma LastThreeCalls(channel: Channel, sweeps: nat, call: Call, d: Delivery)
    requires call in channel && call.counted && call.Raised?
    requires Reached(channel, sweeps, d) && d.retryCount == 4 && d.calls == 4 && d.tasks[0] > 0 && d.tasks[1] > 1
    ensures ReachedCalls(channel, sweeps, 7)
  {
    ReachedByCall(channel, sweeps, d, 0, call);
    var e := AfterTask(d, 0, Called(call));
    ReachedByCall(channel, sweeps, e, 1, call);
    var f := AfterTask(e, 1, Called(call));
    ReachedByCall(channel, sweeps, f, 1, call);
  }

  lemma SevenCalls(channel: Channel, call: Call)
    requires call in channel && call.counted && call.Raised? && FailsEarly(call)
    ensures ReachedCalls(channel, 4, 7)
  {
    ReachedFresh(channel, 4);
    assert Fresh(4).tasks == multiset{} + multiset{0};
    var d := FailRetryAndSweep(channel, 4, Fresh(4), call, 0, multiset{}, 4);
    d := FailRetryAndSweep(channel, 4, d, call, 1, multiset{} + multiset{1}, 3);
    var two := multiset{} + multiset{1} + multiset{1};
    d := FailRetryAndSweep(channel, 4, d, call, 2, two, 2);
    assert two + multiset{} == two;
    d := FailRetryAndSweep(channel, 4, d, call, 3, two, 1);
    assert d.tasks == two + multiset{0};
    LastThreeCalls(channel, 4, call, d);
  }

  /** A call that fails twice over, at once and by its callback, leaves two tasks for one. */
  lemma FailTwiceOver(channel: Channel, sweeps: nat, d: Delivery, call: Call,
      count: nat, extra: multiset<nat>, spare: nat) returns (e: Delivery)
    requires call in channel && call.counted && call.HandedOver? && FailsEarly(call)
    requires Reached(channel, sweeps, d) && Stands(d, count, extra, spare) && count < 4 && 1 < spare
    ensures Reached(channel, sweeps, e) && Stands(e, count + 1, extra + multiset{0}, spare - 2)
  {
    ReachedByCall(channel, sweeps, d, 0, call);
    e := AfterTask(d, 0, Called(call));
    assert e.tasks == extra;
    ReachedNext(channel, sweeps, e, Sweep);
    e := Next(e, Sweep);
    ReachedNext(channel, sweeps, e, Callback(ReportsUnsent));
    e := Next(e, Callback(ReportsUnsent));
    ReachedNext(channel, sweeps, e, Sweep);
    e := Next(e, Sweep);
  }

  lemma {:induction false} CallEachTask(channel: Channel, sweeps: nat, d: Delivery, call: Call, n: nat)
    requires call in channel && call.HandedOver?
    requires Reached(channel, sweeps, d) && n <= d.tasks[0]
    ensures ReachedCalls(channel, sweeps, d.calls + n)
    decreases n
  {
    if n > 0 {
      ReachedByCall(channel, sweeps, d, 0, call);
      CallEachTask(channel, sweeps, AfterTask(d, 0, Called(call)), call, n - 1);
    }
  }

  lemma NineCalls(channel: Channel, call: Call)
    requires call in channel && call.counted && call.HandedOver? && FailsEarly(call)
    ensures ReachedCalls(channel, 8, 9)
  {
    ReachedFresh(channel, 8);
    assert Fresh(8).tasks == multiset{} + multiset{0};
    var d := FailTwiceOver(channel, 8, Fresh(8), call, 0, multiset{}, 8);
    d := FailTwiceOver(channel, 8, d, call, 1, multiset{} + multiset{0}, 6);
    var two := multiset{} + multiset{0} + multiset{0};
    d := FailTwiceOver(channel, 8, d, call, 2, two, 4);
    d := FailTwiceOver(channel, 8, d, call, 3, two + multiset{0}, 2);
    CallEachTask(channel, 8, d, call, 5);
  }

  /** The most calls any number of sweeps can lead to is `n`. */
  ghost predicate MostCalls(channel: Channel, n: nat) {
    (forall sweeps :: CallsAtMost(channel, sweeps, n)) && exists sweeps :: ReachedCalls(channel, sweeps, n)
  }

  /**
   * A channel that counts its calls gets five at most, whatever the sweeps, exactly when it never leaves
   * FAILED on the row with a retry or a callback still to come. If it does, the most is seven, or nine
   * where it is a callback.
   */
  lemma FiveCallsExactlyWhen(channel: Channel)
    requires CountsCalls(channel)
    ensures (forall sweeps :: CallsAtMost(channel, sweeps, 5)) <==> NeverEarly(channel)
    ensures !NeverEarly(channel) ==> MostCalls(channel, if HandsOverFailing(channel) then 9 else 7)
  {
    if NeverEarly(channel) {
      forall sweeps ensures CallsAtMost(channel, sweeps, 5) {
        CountedCallsAreFive(channel, sweeps);
      }
    } else {
      var most := if HandsOverFailing(channel) then 9 else 7;
      forall sweeps ensures CallsAtMost(channel, sweeps, most) {
        SevenOrNineCallsAtMost(channel, sweeps);
      }
      if HandsOverFailing(channel) {
        var call :| call in channel && call.HandedOver? && FailsEarly(call);
        NineCalls(channel, call);
        assert !CallsAtMost(channel, 8, 5);
      } else {
        var call :| call in channel && FailsEarly(call);
        SevenCalls(channel, call);
        assert !CallsAtMost(channel, 4, 5);
      }
    }
  }

  // ---- Celery's cap ----

  predicate AttemptsFollowCount(d: Delivery) {
    forall attempt :: attempt in d.tasks ==> attempt < MAX_RETRIES && attempt <= d.retryCount
  }

  lemma AttemptsFollowCountIsKept(d: Delivery, step: Step)
    requires AttemptsFollowCount(d)
    requires step.Execute? && step.outcome.Called? && IsRetried(step.outcome.call) ==> step.outcome.call.counted
    ensures AttemptsFollowCount(Next(d, step))
  {
    var e := Next(d, step);
    forall attempt | attempt in e.tasks ensures attempt < MAX_RETRIES && attempt <= e.retryCount {
      if attempt in d.tasks {
      } else if step.Execute? {
        assert attempt == step.attempt + 1;
      }
    }
  }

  lemma {:induction false} AttemptsFollowCountOverRun(channel: Channel, sweeps: nat, steps: seq<Step>)
    requires forall call :: call in channel && IsRetried(call) ==> call.counted
    requires IsOver(channel, steps)
    ensures AttemptsFollowCount(End(Fresh(sweeps), steps))
  {
    if steps != [] {
      var n := |steps| - 1;
      AttemptsFollowCountOverRun(channel, sweeps, steps[..n]);
      assert Allows(channel, steps[n]);
      AttemptsFollowCountIsKept(End(Fresh(sweeps), steps[..n]), steps[n]);
    }
  }

  /** An uncounted error is retried. */
  lemma RetriedUncounted(channel: Channel, sweeps: nat, d: Delivery, attempt: nat, call: Call) returns (e: Delivery)
    requires Reached(channel, sweeps, d) && attempt in d.tasks && attempt < MAX_RETRIES && d.retryCount == 0
    requires call in channel && IsRetried(call) && !call.counted
    ensures Reached(channel, sweeps, e) && attempt + 1 in e.tasks && e.calls == d.calls + 1
    ensures e.retryCount == 0 && e.sweepsLeft == d.sweepsLeft
  {
    ReachedByCall(channel, sweeps, d, attempt, call);
    e := AfterTask(d, attempt, Called(call));
  }

  /** A chain of `n` retries. */
  lemma {:induction false} RetriedInAChain(channel: Channel, sweeps: nat, d: Delivery, call: Call, n: nat)
    returns (e: Delivery)
    requires Reached(channel, sweeps, d) && 0 in d.tasks && d.retryCount == 0 && n <= MAX_RETRIES
    requires call in channel && IsRetried(call) && !call.counted
    ensures Reached(channel, sweeps, e) && n in e.tasks && e.calls == d.calls + n
    ensures e.retryCount == 0 && e.sweepsLeft == d.sweepsLeft
  {
    e := d;
    if n > 0 {
      e := RetriedInAChain(channel, sweeps, d, call, n - 1);
      e := RetriedUncounted(channel, sweeps, e, n - 1, call);
    }
  }

  /** `max_retries` ends a chain of retries only for a channel that raises a retryable error without counting it. */
  lemma CeleryCapIsIdleExactlyWhen(channel: Channel, sweeps: nat)
    ensures (forall d, attempt :: Reached(channel, sweeps, d) && attempt in d.tasks ==> attempt < MAX_RETRIES) <==>
            (forall call :: call in channel && IsRetried(call) ==> call.counted)
  {
    if call :| call in channel && IsRetried(call) && !call.counted {
      ReachedFresh(channel, sweeps);
      var d := RetriedInAChain(channel, sweeps, Fresh(sweeps), call, 3);
    } else {
      forall d, attempt | Reached(channel, sweeps, d) && attempt in d.tasks ensures attempt < MAX_RETRIES {
        var steps :| IsOver(channel, steps) && End(Fresh(sweeps), steps) == d;
        AttemptsFollowCountOverRun(channel, sweeps, steps);
      }
    }
  }

  const UNCOUNTED := Raised(false, false, MarkedFailed, true)

  lemma {:induction false} FourCallsASweep(channel: Channel, sweeps: nat, d: Delivery)
    requires UNCOUNTED in channel && Reached(channel, sweeps, d) && IsReady(d, 0)
    ensures ReachedCalls(channel, sweeps, d.calls + 4 * (d.sweepsLeft + 1))
    decreases d.sweepsLeft
  {
    var e := RetriedInAChain(channel, sweeps, d, UNCOUNTED, 3);
    ReachedByCall(channel, sweeps, e, 3, UNCOUNTED);
    e := AfterTask(e, 3, Called(UNCOUNTED));
    if d.sweepsLeft > 0 {
      ReachedNext(channel, sweeps, e, Sweep);
      FourCallsASweep(channel, sweeps, Next(e, Sweep));
    }
  }

  /** Every channel is bounded by its sweeps, four calls to each and four at first, and no lower bound holds for all. */
  lemma EveryChannelIsBounded(channel: Channel, sweeps: nat)
    ensures CallsAtMost(channel, sweeps, 4 * (sweeps + 1))
    ensures UNCOUNTED in channel ==> ReachedCalls(channel, sweeps, 4 * (sweeps + 1))
  {
    FourCallsASweepAtMost(channel, sweeps);
    if UNCOUNTED in channel {
      ReachedFresh(channel, sweeps);
      FourCallsASweep(channel, sweeps, Fresh(sweeps));
    }
  }

  // ---- Bounded whatever the sweeps ----

  /** A retryable error that leaves the row alone, count included. */
  predicate IsSilentRaise(call: Call) {
    IsRetried(call) && !call.counted && call.mark != MarkedFailed
  }

  ghost predicate OnlySilentRaises(channel: Channel) {
    forall call :: call in channel ==> IsFinal(call) || IsSilentRaise(call)
  }

  predicate UnderCeleryCap(d: Delivery) {
    && |d.tasks| <= 1 && d.awaited == 0 && d.status != Failed && d.calls <= 4
    && forall attempt :: attempt in d.tasks ==> d.retryCount == 0 && d.calls <= attempt <= 3
  }

  lemma UnderCeleryCapIsKept(d: Delivery, step: Step)
    requires UnderCeleryCap(d)
    requires step.Execute? && step.outcome.Called? ==> IsFinal(step.outcome.call) || IsSilentRaise(step.outcome.call)
    ensures UnderCeleryCap(Next(d, step))
  {
    if step.Execute? && step.attempt in d.tasks {
      assert |d.tasks - multiset{step.attempt}| == 0;
    }
  }

  lemma {:induction false} UnderCeleryCapOverRun(channel: Channel, sweeps: nat, steps: seq<Step>)
    requires OnlySilentRaises(channel) && IsOver(channel, steps)
    ensures UnderCeleryCap(End(Fresh(sweeps), steps))
  {
    if steps != [] {
      var n := |steps| - 1;
      UnderCeleryCapOverRun(channel, sweeps, steps[..n]);
      assert Allows(channel, steps[n]);
      UnderCeleryCapIsKept(End(Fresh(sweeps), steps[..n]), steps[n]);
    }
  }

  lemma SilentRaisesAreFour(channel: Channel, sweeps: nat)
    requires OnlySilentRaises(channel)
    ensures CallsAtMost(channel, sweeps, 4)
  {
    forall d | Reached(channel, sweeps, d) ensures d.calls <= 4 {
      var steps :| IsOver(channel, steps) && End(Fresh(sweeps), steps) == d;
      UnderCeleryCapOverRun(channel, sweeps, steps);
    }
  }

  /** A channel that counts some call brings the count to the point where nothing is retried any more. */
  lemma CountReachesThree(channel: Channel, sweeps: nat, call: Call) returns (d: Delivery)
    requires call in channel && call.counted && !IsFinal(call) && 3 <= sweeps
    ensures Reached(channel, sweeps, d) && IsReady(d, 3) && sweeps - 3 <= d.sweepsLeft
  {
    ReachedFresh(channel, sweeps);
    d := Fresh(sweeps);
    if IsRetried(call) && call.mark != MarkedFailed {
      ReachedByCall(channel, sweeps, d, 0, call);
      d := AfterTask(d, 0, Called(call));
      ReachedByCall(channel, sweeps, d, 1, call);
      d := AfterTask(d, 1, Called(call));
      ReachedByCall(channel, sweeps, d, 2, call);
      d := AfterTask(d, 2, Called(call));
      ReachedNext(channel, sweeps, d, Sweep);
      d := Swept(d);
    } else {
      RoundIsReady(channel, sweeps, d, call, 0);
      d := Round(d, call);
      RoundIsReady(channel, sweeps, d, call, 1);
      d := Round(d, call);
      RoundIsReady(channel, sweeps, d, call, 2);
      d := Round(d, call);
    }
  }

  lemma UncountedCallsGrow(channel: Channel, sweeps: nat, d: Delivery, call: Call, count: nat, n: nat)
    requires Reached(channel, sweeps, d) && call in channel && IsReady(d, count) && Refails(call, count)
    requires !call.counted && count < SWEEP_BELOW && n <= d.sweepsLeft
    ensures ReachedCalls(channel, sweeps, n)
  {
    FailingRounds(channel, sweeps, d, call, count, n);
  }

  lemma CallsGrowWithSweeps(channel: Channel, n: nat)
    requires !CountsCalls(channel) && !OnlySilentRaises(channel)
    ensures ReachedCalls(channel, n + 3, n)
  {
    var sweeps := n + 3;
    var uncounted :| uncounted in channel && !uncounted.counted && !IsFinal(uncounted);
    var loud :| loud in channel && !IsFinal(loud) && !IsSilentRaise(loud);
    if !loud.counted {
      ReachedFresh(channel, sweeps);
      UncountedCallsGrow(channel, sweeps, Fresh(sweeps), loud, 0, n);
    } else {
      var d := CountReachesThree(channel, sweeps, loud);
      UncountedCallsGrow(channel, sweeps, d, uncounted, 3, n);
    }
  }

  ghost predicate BoundedBy(channel: Channel, n: nat) {
    forall sweeps :: CallsAtMost(channel, sweeps, n)
  }

  ghost predicate HasBound(channel: Channel) {
    exists n :: BoundedBy(channel, n)
  }

  /**
   * The calls for one delivery have a bound that does not grow with the sweeps exactly when the channel
   * counts every call that can be followed by another, or when its only such calls are retryable errors
   * that leave the row alone, which Celery cuts off at four.
   */
  lemma CallsAreBoundedExactlyWhen(channel: Channel)
    ensures HasBound(channel) <==> CountsCalls(channel) || OnlySilentRaises(channel)
    ensures OnlySilentRaises(channel) ==> BoundedBy(channel, 4)
  {
    if OnlySilentRaises(channel) {
      forall sweeps ensures CallsAtMost(channel, sweeps, 4) {
        SilentRaisesAreFour(channel, sweeps);
      }
      assert BoundedBy(channel, 4);
    } else if CountsCalls(channel) {
      forall sweeps ensures CallsAtMost(channel, sweeps, 9) {
        SevenOrNineCallsAtMost(channel, sweeps);
      }
      assert BoundedBy(channel, 9);
    } else {
      forall n: nat ensures !BoundedBy(channel, n) {
        CallsGrowWithSweeps(channel, n + 1);
        assert !CallsAtMost(channel, n + 4, n);
      }
    }
  }
}
