/** One delivery row, the Celery tasks queued for it, and the calls those tasks make to the channel. */
module DeliveryProtocol {

  const MAX_RETRIES: nat := 3      // Celery's own cap on `self.retry`
  const RETRY_BELOW: nat := 3      // `deliver_to_channel` retries below this count
  const SWEEP_BELOW: nat := 5      // `retry_failed_deliveries` picks a row up below this count

  datatype Status = Pending | Sent | Failed | Skipped

  /** What a channel has written to `status` by the time its `deliver` ends. */
  datatype Mark = Kept | MarkedSent | MarkedFailed

  /**
   * How a call of `deliver` ends: `counted` when it has stored `retry_count` one higher, `left` when the
   * message has gone out. A message handed over goes out, or fails to, later; a callback will report.
   */
  datatype Call =
    | Returned(counted: bool, left: bool, mark: Mark, success: bool)
    | HandedOver(counted: bool, mark: Mark, success: bool)
    | Raised(counted: bool, left: bool, mark: Mark, retryable: bool)

  /** What a callback reports, and whether the message has gone out: an error after the sending is one as well. */
  datatype Report = ReportsSent | ReportsUnsent | ReportsLost

  /** What a task meets: `can_deliver` says no, or the channel is called. */
  datatype Outcome = Refused | Called(call: Call)

  /**
   * `sweepsLeft` is the number of periodic sweeps the row will meet before it is a day old, `tasks` holds
   * the attempt number of each queued task, `awaited` counts the callbacks still to come, `calls` the
   * calls of the channel so far and `messages` the messages that have gone out.
   */
  datatype Delivery = Delivery(
    status: Status, retryCount: nat, sweepsLeft: nat, tasks: multiset<nat>, awaited: nat, calls: nat, messages: nat)

  datatype Step = Execute(attempt: nat, outcome: Outcome) | Sweep | Callback(report: Report)

  function Fresh(sweeps: nat): Delivery {
    Delivery(Pending, 0, sweeps, multiset{0}, 0, 0, 0)
  }

  function Marked(status: Status, mark: Mark): Status {
    match mark
    case Kept => status
    case MarkedSent => Sent
    case MarkedFailed => Failed
  }

  predicate HasLeft(call: Call) {
    !call.HandedOver? && call.left
  }

  /** A call from the task with number `attempt`, which has left the queue. */
  function AfterCall(d: Delivery, attempt: nat, call: Call): Delivery {
    var count := if call.counted then d.retryCount + 1 else d.retryCount;
    var messages := if HasLeft(call) then d.messages + 1 else d.messages;
    var e := d.(status := Marked(d.status, call.mark), retryCount := count, calls := d.calls + 1, messages := messages);
    match call
    case Returned(_, _, _, _) => e
    case HandedOver(_, _, _) => e.(awaited := d.awaited + 1)
    case Raised(_, _, _, retryable) =>
      if !(retryable && count < RETRY_BELOW) then e.(status := Failed)
      else if attempt < MAX_RETRIES then e.(tasks := d.tasks + multiset{attempt + 1})
      else e
  }

  function AfterTask(d: Delivery, attempt: nat, outcome: Outcome): Delivery {
    var e := d.(tasks := d.tasks - multiset{attempt});
    if outcome.Refused? then e.(status := Skipped) else AfterCall(e, attempt, outcome.call)
  }

  predicate IsSwept(d: Delivery) {
    d.status == Failed && d.retryCount < SWEEP_BELOW && 0 < d.sweepsLeft
  }

  function Left(limit: nat, count: nat): nat {
    if count < limit then limit - count else 0
  }

  function Swept(d: Delivery): Delivery {
    var e := d.(sweepsLeft := Left(d.sweepsLeft, 1));
    if IsSwept(d) then e.(status := Pending, tasks := d.tasks + multiset{0}) else e
  }

  /** A step that cannot be taken changes nothing. */
  function Next(d: Delivery, step: Step): Delivery {
    match step
    case Execute(attempt, outcome) => if attempt in d.tasks then AfterTask(d, attempt, outcome) else d
    case Sweep => Swept(d)
    case Callback(report) =>
      if d.awaited == 0 then d
      else
        d.(status := if report.ReportsSent? then Sent else Failed, awaited := d.awaited - 1,
           messages := if report.ReportsUnsent? then d.messages else d.messages + 1)
  }

  /** The error is not one to retry, or is not retried any more. */
  predicate GivesUp(call: Call, count: nat) {
    call.Raised? && (!call.retryable || 3 <= count)
  }

  /** What one task leaves behind: on the row, in the queue, and at the channel. */
  lemma TaskLeaves(d: Delivery, attempt: nat, outcome: Outcome)
    requires attempt in d.tasks
    ensures var e := Next(d, Execute(attempt, outcome));
            && (outcome.Refused? <==> e.calls == d.calls) && e.sweepsLeft == d.sweepsLeft
            && (outcome.Refused? ==>
                  e.status == Skipped && e.retryCount == d.retryCount && e.tasks == d.tasks - multiset{attempt} &&
                  e.messages == d.messages && e.awaited == d.awaited)
    ensures outcome.Called? ==>
              var e, call := Next(d, Execute(attempt, outcome)), outcome.call;
              && e.calls == d.calls + 1
              && e.retryCount == d.retryCount + (if call.counted then 1 else 0)
              && e.messages == d.messages + (if !call.HandedOver? && call.left then 1 else 0)
              && e.awaited == d.awaited + (if call.HandedOver? then 1 else 0)
              && (GivesUp(call, e.retryCount) || call.mark == MarkedFailed ==> e.status == Failed)
              && (!GivesUp(call, e.retryCount) && call.mark == MarkedSent ==> e.status == Sent)
              && (!GivesUp(call, e.retryCount) && call.mark == Kept ==> e.status == d.status)
              && e.tasks == d.tasks - multiset{attempt} +
                 if call.Raised? && call.retryable && e.retryCount < 3 && attempt < 3
                 then multiset{attempt + 1} else multiset{}
  {}

  /** A sweep takes up a row exactly when it is FAILED, young, and tried fewer than five times. */
  lemma SweepTakesUp(d: Delivery)
    ensures var e := Next(d, Sweep);
            var young, taken := 0 < d.sweepsLeft, d.status == Failed && d.retryCount < 5 && 0 < d.sweepsLeft;
            && (taken <==> e.tasks == d.tasks + multiset{0}) && (!taken <==> e.tasks == d.tasks)
            && e.status == (if taken then Pending else d.status)
            && d.sweepsLeft == e.sweepsLeft + (if young then 1 else 0)
            && e.retryCount == d.retryCount && e.awaited == d.awaited
            && e.calls == d.calls && e.messages == d.messages
  {
    assert d.tasks + multiset{0} != d.tasks by {
      assert (d.tasks + multiset{0})[0] == d.tasks[0] + 1;
    }
  }

  /** A callback that is awaited settles the row by what it reports. */
  lemma CallbackSettles(d: Delivery, report: Report)
    requires 0 < d.awaited
    ensures var e := Next(d, Callback(report));
            && (e.status == Sent <==> report == ReportsSent) && (e.status == Failed <==> report != ReportsSent)
            && (e.messages == d.messages <==> report == ReportsUnsent) && e.messages <= d.messages + 1
            && e.awaited == d.awaited - 1 && e.retryCount == d.retryCount && e.tasks == d.tasks
            && e.calls == d.calls && e.sweepsLeft == d.sweepsLeft
  {}

  function End(d: Delivery, steps: seq<Step>): Delivery {
    if steps == [] then d else Next(End(d, steps[..|steps| - 1]), steps[|steps| - 1])
  }

  // ---- Runs over a channel ----

  /** A channel is the set of ways its `deliver` may end. */
  type Channel = iset<Call>

  ghost predicate Allows(channel: Channel, step: Step) {
    step.Execute? && step.outcome.Called? ==> step.outcome.call in channel
  }

  ghost predicate IsOver(channel: Channel, steps: seq<Step>) {
    forall i :: 0 <= i < |steps| ==> Allows(channel, steps[i])
  }

  /** Some run leads a row that meets at most `sweeps` sweeps to `d`. */
  ghost predicate Reached(channel: Channel, sweeps: nat, d: Delivery) {
    exists steps :: IsOver(channel, steps) && End(Fresh(sweeps), steps) == d
  }

  lemma ReachedNext(channel: Channel, sweeps: nat, d: Delivery, step: Step)
    requires Reached(channel, sweeps, d) && Allows(channel, step)
    ensures Reached(channel, sweeps, Next(d, step))
  {
    var steps :| IsOver(channel, steps) && End(Fresh(sweeps), steps) == d;
    var longer := steps + [step];
    assert longer[..|longer| - 1] == steps;
    assert IsOver(channel, longer) && End(Fresh(sweeps), longer) == Next(d, step);
  }

  lemma ReachedFresh(channel: Channel, sweeps: nat)
    ensures Reached(channel, sweeps, Fresh(sweeps))
  {
    assert IsOver(channel, []) && End(Fresh(sweeps), []) == Fresh(sweeps);
  }

  /** No run of a row that meets at most `sweeps` sweeps calls the channel more than `n` times. */
  ghost predicate CallsAtMost(channel: Channel, sweeps: nat, n: nat) {
    forall d :: Reached(channel, sweeps, d) ==> d.calls <= n
  }

  // ---- Kinds of calls ----

  /** Nothing follows such a call. */
  predicate IsFinal(call: Call) {
    call.Returned? && call.mark != MarkedFailed
  }

  /** Every call after which another may follow stores the count. */
  ghost predicate CountsCalls(channel: Channel) {
    forall call :: call in channel ==> call.counted || IsFinal(call)
  }

  /** A retry or a callback is to come by itself. */
  predicate MoreToCome(call: Call) {
    call.HandedOver? || (call.Raised? && call.retryable)
  }

  /** FAILED is on the row while more is to come: a sweep will queue a task beside it. */
  predicate FailsEarly(call: Call) {
    MoreToCome(call) && call.mark == MarkedFailed
  }

  ghost predicate NeverEarly(channel: Channel) {
    forall call :: call in channel ==> !FailsEarly(call)
  }

  ghost predicate HandsOverFailing(channel: Channel) {
    exists call :: call in channel && call.HandedOver? && FailsEarly(call)
  }

  predicate CountsStep(step: Step) {
    step.Execute? && step.outcome.Called? ==> step.outcome.call.counted || IsFinal(step.outcome.call)
  }

  predicate HandsOverFailingStep(step: Step) {
    step.Execute? && step.outcome.Called? && step.outcome.call.HandedOver? && FailsEarly(step.outcome.call)
  }

  // ---- However many sweeps there are ----

  /** Calls made, and calls still possible: `twice` when a call may lead to FAILED once more by its callback. */
  function Budget(d: Delivery, twice: bool): nat {
    |d.tasks| + d.calls + Left(4, d.retryCount) + Left(if twice then 4 else 2, d.retryCount) +
    if d.retryCount < SWEEP_BELOW then d.awaited + (if d.status == Failed then 1 else 0) else 0
  }

  lemma BudgetNeverGrows(d: Delivery, step: Step, twice: bool)
    requires CountsStep(step) && (HandsOverFailingStep(step) ==> twice)
    ensures Budget(Next(d, step), twice) <= Budget(d, twice)
  {
    if step.Execute? && step.attempt in d.tasks {
      assert |d.tasks - multiset{step.attempt}| == |d.tasks| - 1;
    }
  }

  lemma {:induction false} BudgetOverRun(channel: Channel, sweeps: nat, steps: seq<Step>)
    requires CountsCalls(channel) && IsOver(channel, steps)
    ensures Budget(End(Fresh(sweeps), steps), HandsOverFailing(channel)) <= if HandsOverFailing(channel) then 9 else 7
  {
    if steps != [] {
      var n := |steps| - 1;
      BudgetOverRun(channel, sweeps, steps[..n]);
      assert Allows(channel, steps[n]);
      BudgetNeverGrows(End(Fresh(sweeps), steps[..n]), steps[n], HandsOverFailing(channel));
    }
  }

  /** Whatever the mix of Celery retries, callbacks and sweeps. */
  lemma SevenOrNineCallsAtMost(channel: Channel, sweeps: nat)
    requires CountsCalls(channel)
    ensures CallsAtMost(channel, sweeps, if HandsOverFailing(channel) then 9 else 7)
  {
    forall d | Reached(channel, sweeps, d) ensures d.calls <= if HandsOverFailing(channel) then 9 else 7 {
      var steps :| IsOver(channel, steps) && End(Fresh(sweeps), steps) == d;
      BudgetOverRun(channel, sweeps, steps);
    }
  }

  // ---- One task at a time ----

  predicate OneAtATime(d: Delivery) {
    && |d.tasks| + d.awaited <= 1
    && d.retryCount <= 5 && d.calls <= 5
    && (d.tasks != multiset{} || d.awaited > 0 ==> d.status != Failed && d.calls <= d.retryCount)
    && (d.tasks != multiset{} ==> d.retryCount < 5)
    && (d.status == Failed ==> d.calls <= d.retryCount)
  }

  lemma OneAtATimeIsKept(d: Delivery, step: Step)
    requires OneAtATime(d) && CountsStep(step)
    requires step.Execute? && step.outcome.Called? ==> !FailsEarly(step.outcome.call)
    ensures OneAtATime(Next(d, step))
  {
    if step.Execute? && step.attempt in d.tasks {
      assert d.tasks == multiset{step.attempt} by {
        assert |d.tasks - multiset{step.attempt}| == 0;
      }
    }
  }

  lemma {:induction false} OneAtATimeOverRun(channel: Channel, sweeps: nat, steps: seq<Step>)
    requires CountsCalls(channel) && NeverEarly(channel) && IsOver(channel, steps)
    ensures OneAtATime(End(Fresh(sweeps), steps))
  {
    if steps != [] {
      var n := |steps| - 1;
      OneAtATimeOverRun(channel, sweeps, steps[..n]);
      assert Allows(channel, steps[n]);
      OneAtATimeIsKept(End(Fresh(sweeps), steps[..n]), steps[n]);
    }
  }

  // ---- With so many sweeps ----

  /** Calls the queued tasks can lead to: four to a chain of retries. */
  function ChainCalls(tasks: multiset<nat>): nat {
    4 * tasks[0] + 3 * tasks[1] + 2 * tasks[2] + tasks[3]
  }

  function ChainBudget(d: Delivery): nat {
    d.calls + ChainCalls(d.tasks) + 4 * d.sweepsLeft
  }

  predicate WithinCap(d: Delivery) {
    forall attempt :: attempt in d.tasks ==> attempt <= MAX_RETRIES
  }

  /** A task leaves the queue, for a retry at most. */
  lemma TasksAfter(d: Delivery, attempt: nat, outcome: Outcome)
    ensures var e, rest := AfterTask(d, attempt, outcome), d.tasks - multiset{attempt};
            && e.calls <= d.calls + 1 && e.sweepsLeft == d.sweepsLeft
            && (e.tasks == rest || (attempt < MAX_RETRIES && e.tasks == rest + multiset{attempt + 1}))
  {}

  lemma ChainCallsAfter(tasks: multiset<nat>, attempt: nat)
    requires attempt in tasks && attempt <= 3
    ensures ChainCalls(tasks - multiset{attempt}) < ChainCalls(tasks)
    ensures attempt < 3 ==> ChainCalls(tasks - multiset{attempt} + multiset{attempt + 1}) < ChainCalls(tasks)
  {}

  lemma ChainBudgetNeverGrows(d: Delivery, step: Step)
    requires WithinCap(d)
    ensures WithinCap(Next(d, step)) && ChainBudget(Next(d, step)) <= ChainBudget(d)
  {
    match step
    case Execute(attempt, outcome) =>
      if attempt in d.tasks {
        TasksAfter(d, attempt, outcome);
        ChainCallsAfter(d.tasks, attempt);
      }
    case Sweep =>
    case Callback(_) =>
  }

  lemma {:induction false} ChainBudgetOverRun(sweeps: nat, steps: seq<Step>)
    ensures WithinCap(End(Fresh(sweeps), steps)) && ChainBudget(End(Fresh(sweeps), steps)) <= 4 * (sweeps + 1)
  {
    if steps != [] {
      var n := |steps| - 1;
      ChainBudgetOverRun(sweeps, steps[..n]);
      ChainBudgetNeverGrows(End(Fresh(sweeps), steps[..n]), steps[n]);
    }
  }

  /** One task a sweep and one at first, each with no more calls than Celery's cap allows. */
  lemma FourCallsASweepAtMost(channel: Channel, sweeps: nat)
    ensures CallsAtMost(channel, sweeps, 4 * (sweeps + 1))
  {
    forall d | Reached(channel, sweeps, d) ensures d.calls <= 4 * (sweeps + 1) {
      var steps :| IsOver(channel, steps) && End(Fresh(sweeps), steps) == d;
      ChainBudgetOverRun(sweeps, steps);
    }
  }

  predicate IsRetried(call: Call) {
    call.Raised? && call.retryable
  }

  /** Calls made, and calls possible with `retries` retries at most. */
  function TaskBudget(d: Delivery, retries: nat): nat {
    d.calls + |d.tasks| + d.sweepsLeft + Left(retries, d.retryCount)
  }

  lemma TaskBudgetNeverGrows(d: Delivery, step: Step, retries: nat)
    requires step.Execute? && step.outcome.Called? && IsRetried(step.outcome.call) ==>
               step.outcome.call.counted && retries == 2
    ensures TaskBudget(Next(d, step), retries) <= TaskBudget(d, retries)
  {
    if step.Execute? && step.attempt in d.tasks {
      assert |d.tasks - multiset{step.attempt}| == |d.tasks| - 1;
    }
  }

  lemma {:induction false} TaskBudgetOverRun(channel: Channel, sweeps: nat, steps: seq<Step>, retries: nat)
    requires IsOver(channel, steps)
    requires forall call :: call in channel && IsRetried(call) ==> call.counted && retries == 2
    ensures TaskBudget(End(Fresh(sweeps), steps), retries) <= 1 + sweeps + retries
  {
    if steps != [] {
      var n := |steps| - 1;
      TaskBudgetOverRun(channel, sweeps, steps[..n], retries);
      assert Allows(channel, steps[n]);
      TaskBudgetNeverGrows(End(Fresh(sweeps), steps[..n]), steps[n], retries);
    }
  }

  /** A task a sweep, one at first, and the retries that counted calls allow. */
  lemma OneCallASweepAtMost(channel: Channel, sweeps: nat, retries: nat)
    requires forall call :: call in channel && IsRetried(call) ==> call.counted && retries == 2
    ensures CallsAtMost(channel, sweeps, 1 + sweeps + retries)
  {
    forall d | Reached(channel, sweeps, d) ensures d.calls <= 1 + sweeps + retries {
      var steps :| IsOver(channel, steps) && End(Fresh(sweeps), steps) == d;
      TaskBudgetOverRun(channel, sweeps, steps, retries);
    }
  }
}
