/** Whether a delivery that has been sent, or skipped, is done with. */
module DeliveryFinality {
  import opened DeliveryBounds
  import opened DeliveryProtocol

  /** Nothing is queued, awaited or due to be swept. */
  predicate IsSettled(d: Delivery) {
    d.tasks == multiset{} && d.awaited == 0 && d.status != Failed
  }

  /** A settled delivery only ages. */
  lemma {:induction false} SettledStaysSettled(d: Delivery, steps: seq<Step>)
    requires IsSettled(d)
    ensures End(d, steps) == d.(sweepsLeft := End(d, steps).sweepsLeft)
  {
    if steps != [] {
      SettledStaysSettled(d, steps[..|steps| - 1]);
    }
  }

  /** A call that more is to come after leaves the status alone. */
  predicate WaitsUnmarked(call: Call) {
    MoreToCome(call) ==> call.mark == Kept
  }

  /** The sweep finds the row only when no task or callback has it. */
  predicate InFlightIsPending(d: Delivery) {
    |d.tasks| + d.awaited <= 1 && (d.tasks != multiset{} || d.awaited > 0 ==> d.status == Pending)
  }

  lemma InFlightIsKept(d: Delivery, step: Step)
    requires InFlightIsPending(d)
    requires step.Execute? && step.outcome.Called? ==> WaitsUnmarked(step.outcome.call)
    ensures InFlightIsPending(Next(d, step))
  {
    if step.Execute? && step.attempt in d.tasks {
      assert |d.tasks - multiset{step.attempt}| == 0;
    }
  }

  lemma {:induction false} InFlightOverRun(channel: Channel, sweeps: nat, steps: seq<Step>)
    requires forall call :: call in channel ==> WaitsUnmarked(call)
    requires IsOver(channel, steps)
    ensures InFlightIsPending(End(Fresh(sweeps), steps))
  {
    if steps != [] {
      var n := |steps| - 1;
      InFlightOverRun(channel, sweeps, steps[..n]);
      assert Allows(channel, steps[n]);
      InFlightIsKept(End(Fresh(sweeps), steps[..n]), steps[n]);
    }
  }

  lemma SweptAndRefused(channel: Channel, d: Delivery) returns (e: Delivery)
    requires Reached(channel, 1, d) && IsSwept(d) && (1 in d.tasks || d.awaited > 0)
    ensures Reached(channel, 1, e) && e.status == Skipped && (1 in e.tasks || e.awaited > 0)
  {
    ReachedNext(channel, 1, d, Sweep);
    ReachedNext(channel, 1, Swept(d), Execute(0, Refused));
    e := AfterTask(Swept(d), 0, Refused);
  }

  /** The row says SENT or SKIPPED while a retry or a callback is still to come. */
  lemma SettledTooEarly(channel: Channel, call: Call) returns (d: Delivery)
    requires call in channel && !WaitsUnmarked(call)
    ensures Reached(channel, 1, d) && (d.status == Sent || d.status == Skipped) && !IsSettled(d)
  {
    ReachedFresh(channel, 1);
    ReachedNext(channel, 1, Fresh(1), Execute(0, Called(call)));
    d := Next(Fresh(1), Execute(0, Called(call)));
    assert 1 in d.tasks || d.awaited > 0;
    if call.mark == MarkedFailed {
      d := SweptAndRefused(channel, d);
    }
  }

  ghost predicate SettlesWhatItSends(channel: Channel) {
    forall sweeps, d :: Reached(channel, sweeps, d) && (d.status == Sent || d.status == Skipped) ==> IsSettled(d)
  }

  /** A row that says SENT or SKIPPED is settled for good exactly when no call marks it with more to come. */
  lemma SentIsFinalExactlyWhen(channel: Channel)
    ensures SettlesWhatItSends(channel) <==> forall call :: call in channel ==> WaitsUnmarked(call)
  {
    if call :| call in channel && !WaitsUnmarked(call) {
      var d := SettledTooEarly(channel, call);
    } else {
      forall sweeps, d | Reached(channel, sweeps, d) && (d.status == Sent || d.status == Skipped) ensures IsSettled(d) {
        var steps :| IsOver(channel, steps) && End(Fresh(sweeps), steps) == d;
        InFlightOverRun(channel, sweeps, steps);
      }
    }
  }

  /** So it is for in-app notifications and e-mails, but not for Telegram messages. */
  lemma ChannelsThatSettle()
    ensures SettlesWhatItSends(IN_APP) && SettlesWhatItSends(EMAIL) && !SettlesWhatItSends(TELEGRAM)
  {
    SentIsFinalExactlyWhen(IN_APP);
    SentIsFinalExactlyWhen(EMAIL);
    SentIsFinalExactlyWhen(TELEGRAM);
    assert HandedOver(true, MarkedFailed, false) in TELEGRAM;
  }
}
