/** The delivery table: dispatch, delivery and the periodic sweep, over every (notification, channel). */
module DeliveryStore {
  import opened DeliveryProtocol

  type ChannelName = string
  type Key = (nat, ChannelName)
  type Table = map<Key, Delivery>

  function KeysOf(notification: nat, channels: seq<ChannelName>): set<Key> {
    set channel | channel in channels :: (notification, channel)
  }

  /** One queued task for each channel that had no row, and nothing else. A new row will meet `sweeps` sweeps. */
  function Dispatched(table: Table, sweeps: nat, notification: nat, channels: seq<ChannelName>): Table {
    map key | key in table.Keys + KeysOf(notification, channels) :: if key in table then table[key] else Fresh(sweeps)
  }

  /** Time passes: the row has one sweep less to come. */
  function MeetSweep(d: Delivery): Delivery {
    d.(sweepsLeft := Left(d.sweepsLeft, 1))
  }

  function AllSwept(table: Table): Table {
    map key | key in table :: Swept(table[key])
  }

  function SweptKeys(table: Table): set<Key> {
    set key | key in table && IsSwept(table[key])
  }

  lemma {:induction false} DistinctCount(keys: seq<Key>, all: set<Key>)
    requires forall i, j :: 0 <= i < j < |keys| ==> keys[i] != keys[j]
    requires forall key :: key in keys <==> key in all
    ensures |keys| == |all|
  {
    if keys != [] {
      var n := |keys| - 1;
      assert keys == keys[..n] + [keys[n]];
      DistinctCount(keys[..n], all - {keys[n]});
    } else {
      assert all == {};
    }
  }

  /** A query's rows, in some order. */
  method SetToSeq(keys: set<Key>) returns (order: seq<Key>)
    ensures forall key :: key in order <==> key in keys
    ensures forall i, j :: 0 <= i < j < |order| ==> order[i] != order[j]
    ensures |order| == |keys|
  {
    order := [];
    var rest := keys;
    while rest != {}
      invariant forall key :: key in keys <==> key in order || key in rest
      invariant forall i, j :: 0 <= i < j < |order| ==> order[i] != order[j]
      invariant forall key :: key in order ==> key !in rest
      invariant |order| + |rest| == |keys|
      decreases |rest|
    {
      var key :| key in rest;
      order := order + [key];
      rest := rest - {key};
    }
  }

  lemma KeysOfNext(notification: nat, channels: seq<ChannelName>, i: nat)
    requires i < |channels|
    ensures KeysOf(notification, channels[..i + 1]) ==
            KeysOf(notification, channels[..i]) + {(notification, channels[i])}
  {}

  lemma NewKeysCount(before: set<Key>, more: set<Key>)
    ensures |more - before| == |before + more| - |before|
  {
    assert before + more == before + (more - before);
  }

  /** Rows created without a task, once one is queued for each, are as a dispatch leaves them. */
  lemma QueuedRowIsFresh(before: Table, bare: Table, after: Table, created: seq<Key>, sweeps: nat, key: Key)
    requires key in after && key in bare && (key in created <==> key !in before)
    requires bare[key] == if key in before then before[key] else Fresh(sweeps).(tasks := multiset{})
    requires after[key] == if key in created then bare[key].(tasks := bare[key].tasks + multiset{0}) else bare[key]
    ensures after[key] == if key in before then before[key] else Fresh(sweeps)
  {
    assert multiset{} + multiset{0} == multiset{0};
  }

  lemma QueuedRowsAreFresh(before: Table, bare: Table, after: Table, created: seq<Key>, sweeps: nat,
      notification: nat, channels: seq<ChannelName>)
    requires bare.Keys == after.Keys == before.Keys + KeysOf(notification, channels)
    requires forall key :: key in created <==> key in KeysOf(notification, channels) && key !in before
    requires forall key :: key in bare ==>
               bare[key] == if key in before then before[key] else Fresh(sweeps).(tasks := multiset{})
    requires forall key :: key in after ==>
               after[key] == if key in created then bare[key].(tasks := bare[key].tasks + multiset{0}) else bare[key]
    ensures after == Dispatched(before, sweeps, notification, channels)
  {
    forall key | key in after ensures after[key] == Dispatched(before, sweeps, notification, channels)[key] {
      QueuedRowIsFresh(before, bare, after, created, sweeps, key);
    }
  }

  /** Rows taken up by a sweep, once a task is queued for each, are as the sweep leaves them. */
  lemma SweptRows(before: Table, met: Table, after: Table, keys: seq<Key>)
    requires met.Keys == after.Keys == before.Keys && forall key :: key in keys <==> key in SweptKeys(before)
    requires forall key :: key in before ==> met[key] == MeetSweep(before[key])
    requires forall key :: key in before ==>
               after[key] == if key in keys then met[key].(status := Pending, tasks := met[key].tasks + multiset{0})
                             else met[key]
    ensures after == AllSwept(before)
  {
    forall key | key in after ensures after[key] == Swept(before[key]) {}
  }

  datatype TaskEnd = EndedSkipped | EndedSent | EndedFailed | EndedRetrying | EndedRaising

  class Store {
    /** How many periodic sweeps a row meets before it is a day old. */
    const sweeps: nat
    var table: Table

    /** The row, with no task queued for it yet. */
    method GetOrCreate(key: Key) returns (created: bool)
      modifies this
      ensures created <==> key !in old(table)
      ensures table == if created then old(table)[key := Fresh(sweeps).(tasks := multiset{})] else old(table)
    {
      created := key !in table;
      if created {
        table := table[key := Delivery(Pending, 0, sweeps, multiset{}, 0, 0, 0)];
      }
    }

    method Enqueue(key: Key, attempt: nat)
      requires key in table
      modifies this
      ensures table == old(table)[key := old(table)[key].(tasks := old(table)[key].tasks + multiset{attempt})]
    {
      table := table[key := table[key].(tasks := table[key].tasks + multiset{attempt})];
    }

    method EnqueueAll(keys: seq<Key>)
      requires forall key :: key in keys ==> key in table
      requires forall i, j :: 0 <= i < j < |keys| ==> keys[i] != keys[j]
      modifies this
      ensures table.Keys == old(table).Keys
      ensures forall key :: key in table ==>
                table[key] == if key in keys then old(table)[key].(tasks := old(table)[key].tasks + multiset{0})
                              else old(table)[key]
    {
      for i := 0 to |keys|
        invariant table.Keys == old(table).Keys
        invariant forall key :: key in table ==>
                    table[key] ==
                    if key in keys[..i] then old(table)[key].(tasks := old(table)[key].tasks + multiset{0})
                    else old(table)[key]
      {
        assert keys[..i + 1] == keys[..i] + [keys[i]];
        assert keys[i] !in keys[..i];
        Enqueue(keys[i], 0);
      }
      assert keys[..|keys|] == keys;
    }

    /** The rows a dispatch adds, each with no task yet, in the order of creation. */
    method CreateRows(notification: nat, channels: seq<ChannelName>) returns (deliveries: seq<Key>)
      modifies this
      ensures forall key :: key in deliveries <==> key in KeysOf(notification, channels) && key !in old(table)
      ensures forall j, k :: 0 <= j < k < |deliveries| ==> deliveries[j] != deliveries[k]
      ensures table.Keys == old(table).Keys + KeysOf(notification, channels)
      ensures forall key :: key in table ==>
                table[key] == if key in old(table) then old(table)[key] else Fresh(sweeps).(tasks := multiset{})
    {
      deliveries := [];
      ghost var bare := Fresh(sweeps).(tasks := multiset{});
      for i := 0 to |channels|
        invariant forall key :: key in deliveries <==> key in KeysOf(notification, channels[..i]) && key !in old(table)
        invariant forall j, k :: 0 <= j < k < |deliveries| ==> deliveries[j] != deliveries[k]
        invariant table.Keys == old(table).Keys + KeysOf(notification, channels[..i])
        invariant forall key :: key in table ==> table[key] == if key in old(table) then old(table)[key] else bare
      {
        var key := (notification, channels[i]);
        KeysOfNext(notification, channels, i);
        var isNew := GetOrCreate(key);
        if isNew {
          deliveries := deliveries + [key];
        }
      }
      assert channels[..|channels|] == channels;
    }

    method DispatchNotification(notification: nat, channels: seq<ChannelName>) returns (created: nat)
      modifies this
      ensures table == Dispatched(old(table), sweeps, notification, channels)
      ensures created == |KeysOf(notification, channels) - old(table).Keys| == |table.Keys| - |old(table).Keys|
    {
      ghost var before := table;
      var deliveries := CreateRows(notification, channels);
      created := |deliveries|;
      ghost var bare := table;
      if deliveries != [] {
        EnqueueAll(deliveries);
      }
      DistinctCount(deliveries, KeysOf(notification, channels) - before.Keys);
      QueuedRowsAreFresh(before, bare, table, deliveries, sweeps, notification, channels);
      NewKeysCount(before.Keys, KeysOf(notification, channels));
    }

    /** One task for `key`, with the answer of `can_deliver` and the channel's call as an oracle. */
    method DeliverToChannel(key: Key, attempt: nat, outcome: Outcome) returns (end: TaskEnd)
      requires key in table && attempt in table[key].tasks
      modifies this
      ensures table == old(table)[key := AfterTask(old(table)[key], attempt, outcome)]
      ensures end == EndedSkipped <==> outcome.Refused?
      ensures end == EndedSent <==> outcome.Called? && !outcome.call.Raised? && outcome.call.success
      ensures end == EndedFailed <==> outcome.Called? && !outcome.call.Raised? && !outcome.call.success
      ensures end == EndedRetrying <==> |table[key].tasks| == |old(table)[key].tasks|
    {
      var d := table[key].(tasks := table[key].tasks - multiset{attempt});
      if outcome.Refused? {
        table := table[key := d.(status := Skipped)];
        return EndedSkipped;
      }
      // the channel's own writes
      var call := outcome.call;
      d := d.(calls := d.calls + 1, status := Marked(d.status, call.mark));
      if call.counted {
        d := d.(retryCount := d.retryCount + 1);
      }
      if HasLeft(call) {
        d := d.(messages := d.messages + 1);
      }
      match call {
        case Returned(_, _, _, success) =>
          end := if success then EndedSent else EndedFailed;
        case HandedOver(_, _, success) =>
          d := d.(awaited := d.awaited + 1);
          end := if success then EndedSent else EndedFailed;
        case Raised(_, _, _, retryable) =>
          if retryable && d.retryCount < RETRY_BELOW {
            // Celery's retry, which raises the error itself at the cap
            if attempt < MAX_RETRIES {
              d := d.(tasks := d.tasks + multiset{attempt + 1});
              end := EndedRetrying;
            } else {
              end := EndedRaising;
            }
          } else {
            d := d.(status := Failed);
            end := EndedRaising;
          }
      }
      table := table[key := d];
    }

    method RetryFailedDeliveries() returns (retried: nat)
      modifies this
      ensures table == AllSwept(old(table)) && table.Keys == old(table).Keys
      ensures forall key :: key in table ==> table[key] == Next(old(table)[key], Sweep)
      ensures var before := old(table);
              retried == |set key | key in before && before[key].status == Failed
                                    && before[key].retryCount < 5 && 0 < before[key].sweepsLeft|
    {
      ghost var before := table;
      assert SweptKeys(before) == set key | key in before && before[key].status == Failed
                                            && before[key].retryCount < 5 && 0 < before[key].sweepsLeft;
      var keys := SetToSeq(SweptKeys(table));
      retried := |keys|;
      table := map key | key in table :: MeetSweep(table[key]);
      ghost var met := table;
      if keys != [] {
        table := map key | key in table :: if key in keys then table[key].(status := Pending) else table[key];
        EnqueueAll(keys);
      }
      SweptRows(before, met, table, keys);
    }
  }

  // ---- Dispatch ----

  /** Rows that are there stay; each channel without one gets a PENDING row with its first task. */
  lemma DispatchedRows(table: Table, sweeps: nat, notification: nat, channels: seq<ChannelName>, key: Key)
    ensures var after := Dispatched(table, sweeps, notification, channels);
            && (key in after <==> key in table || (key.0 == notification && key.1 in channels))
            && (key in table ==> after[key] == table[key])
            && (key in after && key !in table ==>
                  after[key].status == Pending && after[key].retryCount == 0 && after[key].sweepsLeft == sweeps &&
                  after[key].tasks == multiset{0} && after[key].awaited == 0 &&
                  after[key].calls == 0 && after[key].messages == 0)
  {}

  /** Every channel of `again` has a row already once `channels` are dispatched. */
  predicate AllServed(table: Table, notification: nat, channels: seq<ChannelName>, again: seq<ChannelName>) {
    forall channel :: channel in again ==> channel in channels || (notification, channel) in table
  }

  /** A second dispatch touches no row it finds, and over the same or fewer channels does nothing at all. */
  lemma DispatchIsIdempotent(table: Table, sweeps: nat, notification: nat,
      channels: seq<ChannelName>, again: seq<ChannelName>)
    ensures table.Keys <= Dispatched(table, sweeps, notification, channels).Keys
    ensures forall key :: key in table ==> Dispatched(table, sweeps, notification, channels)[key] == table[key]
    ensures var once := Dispatched(table, sweeps, notification, channels);
            Dispatched(once, sweeps, notification, again) == once <==> AllServed(table, notification, channels, again)
  {
    var once := Dispatched(table, sweeps, notification, channels);
    var twice := Dispatched(once, sweeps, notification, again);
    if AllServed(table, notification, channels, again) {
      assert twice.Keys == once.Keys;
    } else {
      var channel :| channel in again && channel !in channels && (notification, channel) !in table;
      assert (notification, channel) in twice.Keys - once.Keys;
    }
  }

  // ---- Runs of the whole table ----

  datatype Event =
    | Dispatch(notification: nat, channels: seq<ChannelName>)
    | SweepAll
    | At(key: Key, step: Step)     // a task or a callback

  function After(table: Table, sweeps: nat, event: Event): Table {
    match event
    case Dispatch(notification, channels) => Dispatched(table, sweeps, notification, channels)
    case SweepAll => AllSwept(table)
    case At(key, step) => if key in table && !step.Sweep? then table[key := Next(table[key], step)] else table
  }

  function AfterAll(events: seq<Event>, sweeps: nat): Table {
    if events == [] then map[] else After(AfterAll(events[..|events| - 1], sweeps), sweeps, events[|events| - 1])
  }

  ghost predicate Follows(channels: map<ChannelName, Channel>, event: Event) {
    match event
    case Dispatch(_, names) => forall name :: name in names ==> name in channels
    case SweepAll => true
    case At(key, step) => key.1 in channels && Allows(channels[key.1], step)
  }

  ghost predicate IsRun(channels: map<ChannelName, Channel>, events: seq<Event>) {
    forall i :: 0 <= i < |events| ==> Follows(channels, events[i])
  }

  /** Every row of every run has gone through the life of a single delivery over its own channel. */
  lemma {:induction false} EachRowLivesAlone(
      channels: map<ChannelName, Channel>, sweeps: nat, events: seq<Event>, key: Key)
    requires IsRun(channels, events)
    requires key in AfterAll(events, sweeps)
    ensures key.1 in channels && Reached(channels[key.1], sweeps, AfterAll(events, sweeps)[key])
  {
    var n := |events| - 1;
    var before := AfterAll(events[..n], sweeps);
    var event := events[n];
    assert Follows(channels, event);
    if key in before {
      EachRowLivesAlone(channels, sweeps, events[..n], key);
      if event.SweepAll? {
        ReachedNext(channels[key.1], sweeps, before[key], Sweep);
      } else if event.At? && event.key == key {
        ReachedNext(channels[key.1], sweeps, before[key], event.step);
      }
    } else {
      ReachedFresh(channels[key.1], sweeps);
    }
  }

  ghost predicate TableCallsAtMost(channels: map<ChannelName, Channel>, name: ChannelName, sweeps: nat, n: nat) {
    forall events: seq<Event>, key: Key ::
      IsRun(channels, events) && key in AfterAll(events, sweeps) && key.1 == name ==>
        AfterAll(events, sweeps)[key].calls <= n
  }

  /** The life of a delivery is that of its row in some run of the table. */
  lemma {:induction false} OneRowRun(channels: map<ChannelName, Channel>, sweeps: nat, key: Key, steps: seq<Step>)
    returns (events: seq<Event>)
    requires key.1 in channels && IsOver(channels[key.1], steps)
    ensures IsRun(channels, events)
    ensures AfterAll(events, sweeps).Keys == {key} && AfterAll(events, sweeps)[key] == End(Fresh(sweeps), steps)
  {
    if steps == [] {
      events := [Dispatch(key.0, [key.1])];
      assert AfterAll(events[..0], sweeps) == map[];
      assert AfterAll(events, sweeps) == Dispatched(map[], sweeps, key.0, [key.1]);
      assert KeysOf(key.0, [key.1]) == {key};
    } else {
      var n := |steps| - 1;
      var before := OneRowRun(channels, sweeps, key, steps[..n]);
      var event := if steps[n].Sweep? then SweepAll else At(key, steps[n]);
      events := before + [event];
      assert events[..|events| - 1] == before;
      assert Allows(channels[key.1], steps[n]);
    }
  }

  /**
   * However often notifications are dispatched, swept and retried, a channel keeps for each of them to
   * the bound of a single delivery; and no bound for the table is lower than that.
   */
  lemma TableKeepsTheBoundsOfItsChannels(channels: map<ChannelName, Channel>, name: ChannelName, sweeps: nat, n: nat)
    requires name in channels
    ensures TableCallsAtMost(channels, name, sweeps, n) <==> CallsAtMost(channels[name], sweeps, n)
  {
    if CallsAtMost(channels[name], sweeps, n) {
      forall events: seq<Event>, key: Key | IsRun(channels, events) && key in AfterAll(events, sweeps) && key.1 == name
        ensures AfterAll(events, sweeps)[key].calls <= n
      {
        EachRowLivesAlone(channels, sweeps, events, key);
      }
    } else {
      var d :| Reached(channels[name], sweeps, d) && n < d.calls;
      var steps :| IsOver(channels[name], steps) && End(Fresh(sweeps), steps) == d;
      var events := OneRowRun(channels, sweeps, (0, name), steps);
      assert AfterAll(events, sweeps)[(0, name)].calls > n;
    }
  }
}
