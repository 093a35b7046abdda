/** Whether the message of a delivery can go out twice. */
module DeliveryMessages {
  import opened DeliveryBounds
  import opened DeliveryProtocol

  // ---- Runs with honest callbacks, and any runs ----

  /** A callback that reports a failure is right about it. */
  predicate IsHonest(step: Step) {
    step != Callback(ReportsLost)
  }

  ghost predicate AllowedIn(channel: Channel, honest: bool, step: Step) {
    Allows(channel, step) && (honest ==> IsHonest(step))
  }

  ghost predicate IsRunOf(channel: Channel, honest: bool, steps: seq<Step>) {
    forall i :: 0 <= i < |steps| ==> AllowedIn(channel, honest, steps[i])
  }

  /** Some run, of honest callbacks only if `honest`, leads a row that meets one sweep to `d`. */
  ghost predicate Leads(channel: Channel, honest: bool, d: Delivery) {
    exists steps :: IsRunOf(channel, honest, steps) && End(Fresh(1), steps) == d
  }

  lemma Start(channel: Channel, honest: bool) returns (d: Delivery)
    ensures d == Fresh(1) && Leads(channel, honest, d)
  {
    d := Fresh(1);
    assert IsRunOf(channel, honest, []) && End(Fresh(1), []) == d;
  }

  lemma Go(channel: Channel, honest: bool, d: Delivery, step: Step) returns (e: Delivery)
    requires Leads(channel, honest, d) && AllowedIn(channel, honest, step)
    ensures e == Next(d, step) && Leads(channel, honest, e)
  {
    var steps :| IsRunOf(channel, honest, steps) && End(Fresh(1), steps) == d;
    var longer := steps + [step];
    e := Next(d, step);
    assert longer[..|longer| - 1] == steps;
    assert IsRunOf(channel, honest, longer) && End(Fresh(1), longer) == e;
  }

  ghost predicate SendsAtMostOnce(channel: Channel, honest: bool) {
    forall sweeps, steps :: IsRunOf(channel, honest, steps) ==> End(Fresh(sweeps), steps).messages <= 1
  }

  lemma TwoAreTooMany(channel: Channel, honest: bool, d: Delivery)
    requires Leads(channel, honest, d) && 1 < d.messages
    ensures !SendsAtMostOnce(channel, honest)
  {
    var steps :| IsRunOf(channel, honest, steps) && End(Fresh(1), steps) == d;
  }

  // ---- What keeps it to one ----

  /** A message can go out through this call, or after it. */
  predicate CanLeave(call: Call) {
    call.HandedOver? || call.left
  }

  /** The message has gone out and the row will be tried again all the same. */
  predicate LeavesAndFails(call: Call) {
    HasLeft(call) && !IsFinal(call)
  }

  predicate OneMessage(d: Delivery) {
    && |d.tasks| + d.awaited <= 1 && d.messages <= 1
    && (d.tasks != multiset{} || d.awaited > 0 ==> d.status != Failed && d.messages == 0)
    && (d.status == Failed ==> d.messages == 0)
  }

  predicate NoMessage(d: Delivery) {
    d.messages == 0 && d.awaited == 0
  }

  lemma OneMessageIsKept(d: Delivery, step: Step)
    requires OneMessage(d) && (IsHonest(step) || d.awaited == 0)
    requires step.Execute? && step.outcome.Called? ==>
               !FailsEarly(step.outcome.call) && !LeavesAndFails(step.outcome.call)
    ensures OneMessage(Next(d, step))
  {
    if step.Execute? && step.attempt in d.tasks {
      assert |d.tasks - multiset{step.attempt}| == 0;
    }
  }

  lemma {:induction false} NothingAwaited(channel: Channel, sweeps: nat, steps: seq<Step>)
    requires (forall call :: call in channel ==> !call.HandedOver?) && IsOver(channel, steps)
    ensures End(Fresh(sweeps), steps).awaited == 0
  {
    if steps != [] {
      NothingAwaited(channel, sweeps, steps[..|steps| - 1]);
      assert Allows(channel, steps[|steps| - 1]);
    }
  }

  lemma {:induction false} OneMessageOverRun(channel: Channel, honest: bool, sweeps: nat, steps: seq<Step>)
    requires NeverEarly(channel) && (forall call :: call in channel ==> !LeavesAndFails(call))
    requires honest || forall call :: call in channel ==> !call.HandedOver?
    requires IsRunOf(channel, honest, steps)
    ensures OneMessage(End(Fresh(sweeps), steps))
  {
    if steps != [] {
      var n := |steps| - 1;
      OneMessageOverRun(channel, honest, sweeps, steps[..n]);
      assert AllowedIn(channel, honest, steps[n]);
      if !honest {
        NothingAwaited(channel, sweeps, steps[..n]);
      }
      OneMessageIsKept(End(Fresh(sweeps), steps[..n]), steps[n]);
    }
  }

  lemma {:induction false} NoMessageOverRun(channel: Channel, sweeps: nat, steps: seq<Step>)
    requires (forall call :: call in channel ==> !CanLeave(call)) && IsOver(channel, steps)
    ensures NoMessage(End(Fresh(sweeps), steps))
  {
    if steps != [] {
      var n := |steps| - 1;
      NoMessageOverRun(channel, sweeps, steps[..n]);
      assert Allows(channel, steps[n]);
    }
  }

  // ---- What makes it two ----

  /** The message has gone out, and a retry or a sweep is to come. */
  lemma SentOnce(channel: Channel, honest: bool, call: Call) returns (d: Delivery)
    requires call in channel && LeavesAndFails(call)
    ensures Leads(channel, honest, d) && d.messages == 1 && (1 in d.tasks || IsSwept(d))
  {
    d := Start(channel, honest);
    d := Go(channel, honest, d, Execute(0, Called(call)));
  }

  lemma SendsAgain(channel: Channel, honest: bool, d: Delivery, attempt: nat, call: Call) returns (e: Delivery)
    requires call in channel && HasLeft(call) && Leads(channel, honest, d) && attempt in d.tasks
    ensures Leads(channel, honest, e) && e.messages == d.messages + 1
  {
    e := Go(channel, honest, d, Execute(attempt, Called(call)));
  }

  lemma TakenUp(channel: Channel, honest: bool, d: Delivery) returns (e: Delivery)
    requires Leads(channel, honest, d) && IsSwept(d)
    ensures Leads(channel, honest, e) && e.tasks == d.tasks + multiset{0}
    ensures e.messages == d.messages && e.awaited == d.awaited
  {
    e := Go(channel, honest, d, Sweep);
  }

  /** Sent, retried or swept, and sent again. */
  lemma SentAndTriedAgain(channel: Channel, honest: bool, call: Call) returns (d: Delivery)
    requires call in channel && LeavesAndFails(call)
    ensures Leads(channel, honest, d) && d.messages == 2
  {
    d := SentOnce(channel, honest, call);
    if 1 in d.tasks {
      d := SendsAgain(channel, honest, d, 1, call);
    } else {
      d := TakenUp(channel, honest, d);
      d := SendsAgain(channel, honest, d, 0, call);
    }
  }

  /** A task hands its message over. */
  lemma HandsOver(channel: Channel, honest: bool, d: Delivery, attempt: nat, call: Call) returns (e: Delivery)
    requires Leads(channel, honest, d) && attempt in d.tasks && call in channel && call.HandedOver?
    ensures Leads(channel, honest, e) && e.awaited == d.awaited + 1 && e.messages == d.messages
    ensures e.tasks == d.tasks - multiset{attempt} && e.sweepsLeft == d.sweepsLeft
    ensures e.retryCount <= d.retryCount + 1 && e.status == Marked(d.status, call.mark)
  {
    e := Go(channel, honest, d, Execute(attempt, Called(call)));
  }

  lemma CalledBack(channel: Channel, honest: bool, d: Delivery, report: Report) returns (e: Delivery)
    requires Leads(channel, honest, d) && d.awaited > 0 && !report.ReportsUnsent? && (honest ==> report == ReportsSent)
    ensures Leads(channel, honest, e) && e.messages == d.messages + 1 && e.tasks == d.tasks
    ensures e.status == (if report == ReportsSent then Sent else Failed)
    ensures e.retryCount == d.retryCount && e.sweepsLeft == d.sweepsLeft
  {
    e := Go(channel, honest, d, Callback(report));
  }

  /** A task sends its message, by itself or by its callback. */
  lemma SendsOne(channel: Channel, honest: bool, d: Delivery, attempt: nat, call: Call) returns (e: Delivery)
    requires Leads(channel, honest, d) && attempt in d.tasks
    requires call in channel && CanLeave(call) && !LeavesAndFails(call)
    ensures Leads(channel, honest, e) && e.messages == d.messages + 1 && e.tasks == d.tasks - multiset{attempt}
  {
    if call.HandedOver? {
      e := HandsOver(channel, honest, d, attempt, call);
      e := CalledBack(channel, honest, e, ReportsSent);
    } else {
      e := Go(channel, honest, d, Execute(attempt, Called(call)));
    }
  }

  /** FAILED on the row while a callback is awaited: the sweep queues a task for the same message. */
  lemma HandedOverTwice(channel: Channel, honest: bool, early: Call) returns (d: Delivery)
    requires early in channel && early.HandedOver? && FailsEarly(early)
    ensures Leads(channel, honest, d) && d.messages == 2
  {
    d := Start(channel, honest);
    d := HandsOver(channel, honest, d, 0, early);
    d := TakenUp(channel, honest, d);
    d := CalledBack(channel, honest, d, ReportsSent);
    d := SendsOne(channel, honest, d, 0, early);
  }

  /** Handed over, sent, reported as failed all the same, swept and sent again. */
  lemma ReportedLost(channel: Channel, call: Call) returns (d: Delivery)
    requires call in channel && call.HandedOver?
    ensures Leads(channel, false, d) && d.messages == 2
  {
    d := Start(channel, false);
    d := HandsOver(channel, false, d, 0, call);
    d := CalledBack(channel, false, d, ReportsLost);
    d := TakenUp(channel, false, d);
    d := SendsOne(channel, false, d, 0, call);
  }

  /** FAILED on the row while a retry is queued: the sweep queues a second task. */
  lemma TwoTasks(channel: Channel, honest: bool, early: Call) returns (d: Delivery)
    requires early in channel && early.Raised? && FailsEarly(early)
    ensures Leads(channel, honest, d) && d.tasks == multiset{1} + multiset{0}
  {
    d := Start(channel, honest);
    d := Go(channel, honest, d, Execute(0, Called(early)));
    assert d.tasks == multiset{1};
    d := TakenUp(channel, honest, d);
  }

  lemma SentBesideItself(channel: Channel, honest: bool, early: Call, call: Call) returns (d: Delivery)
    requires early in channel && early.Raised? && FailsEarly(early)
    requires call in channel && CanLeave(call) && !LeavesAndFails(call)
    ensures Leads(channel, honest, d) && d.messages >= 2
  {
    d := TwoTasks(channel, honest, early);
    d := SendsOne(channel, honest, d, 0, call);
    assert 1 in d.tasks;
    d := SendsOne(channel, honest, d, 1, call);
  }

  // ---- Exactly when ----

  /** What a channel has to avoid if its callbacks are honest. */
  ghost predicate SendsCarefully(channel: Channel) {
    && (forall call :: call in channel ==> !LeavesAndFails(call))
    && (NeverEarly(channel) || forall call :: call in channel ==> !CanLeave(call))
  }

  lemma CarelessSendsTwice(channel: Channel, honest: bool) returns (d: Delivery)
    requires !SendsCarefully(channel)
    ensures Leads(channel, honest, d) && d.messages >= 2
  {
    if call :| call in channel && LeavesAndFails(call) {
      d := SentAndTriedAgain(channel, honest, call);
    } else {
      var early :| early in channel && FailsEarly(early);
      var call :| call in channel && CanLeave(call);
      if early.HandedOver? {
        d := HandedOverTwice(channel, honest, early);
      } else {
        d := SentBesideItself(channel, honest, early, call);
      }
    }
  }

  ghost predicate NeverHandsOver(channel: Channel) {
    forall call :: call in channel ==> !call.HandedOver?
  }

  /**
   * No delivery sends its message twice, in any run, exactly when a call whose message has gone out never
   * raises or marks the row FAILED, a row is never marked FAILED with more to come (or nothing is ever
   * sent), and no message is handed over. In the runs whose callbacks report no failure for a message that
   * has gone out, the first two are enough.
   */
  lemma SendsAtMostOnceExactlyWhen(channel: Channel, honest: bool)
    ensures SendsAtMostOnce(channel, honest) <==> SendsCarefully(channel) && (honest || NeverHandsOver(channel))
  {
    if !SendsCarefully(channel) {
      var d := CarelessSendsTwice(channel, honest);
      TwoAreTooMany(channel, honest, d);
    } else if !honest && !NeverHandsOver(channel) {
      var call :| call in channel && call.HandedOver?;
      var d := ReportedLost(channel, call);
      TwoAreTooMany(channel, honest, d);
    } else {
      forall sweeps, steps | IsRunOf(channel, honest, steps) ensures End(Fresh(sweeps), steps).messages <= 1 {
        if NeverEarly(channel) {
          OneMessageOverRun(channel, honest, sweeps, steps);
        } else {
          assert IsOver(channel, steps);
          NoMessageOverRun(channel, sweeps, steps);
        }
      }
    }
  }

  /** E-mail, as long as every row is saved once the message is sent. */
  ghost const SAVED_EMAIL: Channel := EMAIL - iset{Returned(true, true, MarkedFailed, false)}

  /** Telegram, as long as every row is saved once the message is handed over. */
  ghost const SAVED_TELEGRAM: Channel := TELEGRAM - iset{HandedOver(true, MarkedFailed, false)}

  lemma InAppIsSentOnce()
    ensures SendsAtMostOnce(IN_APP, false)
  {
    SendsAtMostOnceExactlyWhen(IN_APP, false);
  }

  /**
   * An e-mail can go out twice: once it is sent, a row that cannot be saved marks the delivery FAILED.
   * Without that case it goes out once at most.
   */
  lemma EmailCanBeSentTwice()
    ensures !SendsAtMostOnce(EMAIL, true) && SendsAtMostOnce(SAVED_EMAIL, false)
  {
    assert !SendsAtMostOnce(EMAIL, true) by {
      SendsAtMostOnceExactlyWhen(EMAIL, true);
      assert Returned(true, true, MarkedFailed, false) in EMAIL;
    }
    SendsAtMostOnceExactlyWhen(SAVED_EMAIL, false);
  }

  /**
   * So can a Telegram message, for two reasons: a save that fails once it has been handed over, and an
   * error after it has arrived that is reported as a failure. Without both it goes out once at most.
   */
  lemma TelegramCanBeSentTwice()
    ensures !SendsAtMostOnce(TELEGRAM, true)
    ensures !SendsAtMostOnce(SAVED_TELEGRAM, false) && SendsAtMostOnce(SAVED_TELEGRAM, true)
  {
    assert !SendsAtMostOnce(TELEGRAM, true) by {
      SendsAtMostOnceExactlyWhen(TELEGRAM, true);
      assert HandedOver(true, MarkedFailed, false) in TELEGRAM;
    }
    assert !SendsAtMostOnce(SAVED_TELEGRAM, false) by {
      SendsAtMostOnceExactlyWhen(SAVED_TELEGRAM, false);
      assert HandedOver(false, Kept, true) in SAVED_TELEGRAM;
    }
    SendsAtMostOnceExactlyWhen(SAVED_TELEGRAM, true);
  }
}
