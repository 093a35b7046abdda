/** `close_polls_due`: on its own, and with other tasks and lifecycle changes in between its rows. */
module PollCloser {
  import opened Options
  import opened PollRows

  type Polls = map<nat, Poll>

  function DueIds(polls: Polls, now: int): set<nat> {
    set id | id in polls && polls[id].IsDue(now)
  }

  ghost predicate ListsDueIds(ids: seq<nat>, polls: Polls, now: int) {
    && (forall id :: id in ids <==> id in DueIds(polls, now))
    && (forall i, j :: 0 <= i < j < |ids| ==> ids[i] != ids[j])
  }

  // ---- The task by itself ----

  /** `after` is `before`, closed at the time the clock showed on a later one of its first `readings`. */
  ghost predicate ClosedWhile(clock: nat -> int, readings: nat, before: Poll, after: Poll) {
    && after.status == Closed && after.closesAt == before.closesAt
    && exists n: nat :: 0 < n < readings && after.closedAt == Some(clock(n))
  }

  class PollTable {
    var polls: Polls

    /** The ids the query returns, in some order. */
    method SnapshotDueIds(now: int) returns (ids: seq<nat>)
      ensures ListsDueIds(ids, polls, now) && |ids| == |DueIds(polls, now)|
    {
      ids := [];
      var rest := DueIds(polls, now);
      ghost var all := rest;
      while rest != {}
        invariant forall id :: id in all <==> id in ids || id in rest
        invariant forall i, j :: 0 <= i < j < |ids| ==> ids[i] != ids[j]
        invariant forall id :: id in ids ==> id !in rest
        invariant |ids| + |rest| == |all|
        decreases |rest|
      {
        var id :| id in rest;
        ids := ids + [id];
        rest := rest - {id};
      }
    }

    /** The task, with `clock(n)` the time its n-th reading of the clock shows. */
    method ClosePollsDue(clock: nat -> int) returns (closed: nat)
      requires forall i, j :: 0 <= i <= j ==> clock(i) <= clock(j)
      modifies this
      ensures polls.Keys == old(polls).Keys
      ensures var was := old(polls);
              closed == |set id | id in was && was[id].status == Open
                                  && was[id].closesAt.Some? && was[id].closesAt.value <= clock(0)|
      ensures var was := old(polls);
              forall id :: id in polls ==>
                if was[id].status == Open && was[id].closesAt.Some? && was[id].closesAt.value <= clock(0)
                then ClosedWhile(clock, 1 + 2 * closed, was[id], polls[id])
                else polls[id] == was[id]
    {
      var dueIds := SnapshotDueIds(clock(0));
      closed := 0;
      ghost var before := polls;
      for k := 0 to |dueIds|
        invariant closed == k && polls.Keys == before.Keys
        invariant forall id :: id in polls ==>
                    if id in dueIds[..k] then ClosedWhile(clock, 1 + 2 * k, before[id], polls[id])
                    else polls[id] == before[id]
      {
        var id := dueIds[k];
        assert id in dueIds && id !in dueIds[..k];
        assert dueIds[..k + 1] == dueIds[..k] + [id];
        if !(id in polls && polls[id].IsDue(clock(1 + 2 * k))) {
          continue;
        }
        polls := polls[id := polls[id].CloseAt(clock(2 + 2 * k))];
        closed := closed + 1;
        assert ClosedWhile(clock, 1 + 2 * (k + 1), before[id], polls[id]);
      }
      assert dueIds[..|dueIds|] == dueIds;
      assert DueIds(before, clock(0)) == set id | id in before && before[id].status == Open
                                                  && before[id].closesAt.Some? && before[id].closesAt.value <= clock(0);
    }
  }

  // ---- Any number of tasks, interleaved ----

  datatype Task =
    | NotStarted
    | Looping(due: seq<nat>, next: nat, count: nat)
    | Finished(due: seq<nat>, count: nat)

  datatype Action =
    | Tick(elapsed: nat)
    | TaskStep(task: nat)
    | ManualClose(id: nat)
    | OpenPoll(id: nat)
    | Reopen(id: nat, newClosesAt: Option<int>)       // with an override, or with the deadline cleared
    | ReopenUnchanged(id: nat)                        // the old deadline still lies ahead
    | Reschedule(id: nat, newClosesAt: Option<int>)
    | Create(id: nat, poll: Poll)
    | Delete(id: nat)

  /** `closings` records which task closed which poll, oldest first. */
  datatype State = State(now: int, polls: Polls, tasks: seq<Task>, closings: seq<(nat, nat)>)

  /** One row of the batch, in its own transaction under the row lock. */
  ghost predicate TaskMoves(s: State, t: State, i: nat) {
    && i < |s.tasks|
    && match s.tasks[i]
       case NotStarted =>
         exists due :: ListsDueIds(due, s.polls, s.now) && t == s.(tasks := s.tasks[i := Looping(due, 0, 0)])
       case Looping(due, next, count) =>
         if |due| <= next then t == s.(tasks := s.tasks[i := Finished(due, count)])
         else if due[next] in s.polls && s.polls[due[next]].IsDue(s.now) then
           t == s.(polls := s.polls[due[next] := s.polls[due[next]].CloseAt(s.now)],
                   tasks := s.tasks[i := Looping(due, next + 1, count + 1)],
                   closings := s.closings + [(i, due[next])])
         else t == s.(tasks := s.tasks[i := Looping(due, next + 1, count)])
       case Finished(_, _) => false
  }

  /** A lifecycle call that finds poll `id` in status `from` and leaves `poll` there. */
  ghost predicate Sets(s: State, t: State, id: nat, from: Status, poll: Poll) {
    id in s.polls && s.polls[id].status == from && t == s.(polls := s.polls[id := poll])
  }

  ghost predicate Step(s: State, t: State, a: Action) {
    match a
    case Tick(elapsed) => t == s.(now := s.now + elapsed)
    case TaskStep(i) => TaskMoves(s, t, i)
    case ManualClose(id) => id in s.polls && Sets(s, t, id, Open, s.polls[id].CloseAt(s.now))
    case OpenPoll(id) => id in s.polls && Sets(s, t, id, Draft, s.polls[id].(status := Open))
    case Reopen(id, at) =>
      (at.Some? ==> s.now < at.value) && Sets(s, t, id, Closed, Poll(Open, at, None))
    case ReopenUnchanged(id) =>
      && id in s.polls && s.polls[id].closesAt.Some? && s.now < s.polls[id].closesAt.value
      && Sets(s, t, id, Closed, s.polls[id].(status := Open, closedAt := None))
    case Reschedule(id, at) => id in s.polls && t == s.(polls := s.polls[id := s.polls[id].(closesAt := at)])
    case Create(id, poll) => id !in s.polls && t == s.(polls := s.polls[id := poll])
    case Delete(id) => t == s.(polls := s.polls - {id})
  }

  ghost predicate Init(s: State) {
    s.closings == [] && forall i :: 0 <= i < |s.tasks| ==> s.tasks[i] == NotStarted
  }

  ghost predicate IsRun(run: seq<State>, acts: seq<Action>) {
    && |run| == |acts| + 1 && Init(run[0])
    && forall k :: 0 <= k < |acts| ==> Step(run[k], run[k + 1], acts[k])
  }

  ghost predicate ClosesDuePoll(s: State, t: State, i: nat, id: nat) {
    && id in s.polls && s.polls[id].status == Open
    && s.polls[id].closesAt.Some? && s.polls[id].closesAt.value <= s.now
    && t.polls == s.polls[id := Poll(Closed, s.polls[id].closesAt, Some(s.now))]
    && t.closings == s.closings + [(i, id)]
  }

  /** Each poll a task closes is open and past its deadline in that very step, and is all the step changes. */
  lemma TaskClosesOnlyDuePolls(s: State, t: State, i: nat)
    requires TaskMoves(s, t, i)
    ensures (t.polls == s.polls && t.closings == s.closings) || exists id :: ClosesDuePoll(s, t, i, id)
  {
    if s.tasks[i].Looping? && t.polls != s.polls {
      assert ClosesDuePoll(s, t, i, s.tasks[i].due[s.tasks[i].next]);
    }
  }

  function CountOf(task: Task): nat {
    if task.NotStarted? then 0 else task.count
  }

  function TotalCount(tasks: seq<Task>): nat {
    if tasks == [] then 0 else TotalCount(tasks[..|tasks| - 1]) + CountOf(tasks[|tasks| - 1])
  }

  lemma {:induction false} TotalAfterUpdate(tasks: seq<Task>, i: nat, task: Task)
    requires i < |tasks|
    ensures TotalCount(tasks[i := task]) == TotalCount(tasks) - CountOf(tasks[i]) + CountOf(task)
  {
    var n := |tasks| - 1;
    var updated := tasks[i := task];
    if i == n {
      assert updated[..n] == tasks[..n];
    } else {
      assert updated[..n] == tasks[..n][i := task];
      TotalAfterUpdate(tasks[..n], i, task);
    }
  }

  lemma {:induction false} NothingCounted(tasks: seq<Task>)
    requires forall i :: 0 <= i < |tasks| ==> tasks[i] == NotStarted
    ensures TotalCount(tasks) == 0
  {
    if tasks != [] {
      NothingCounted(tasks[..|tasks| - 1]);
    }
  }

  /** In every run the tasks' counts add up to the number of polls tasks have closed. */
  lemma {:induction false} CountsAddUp(run: seq<State>, acts: seq<Action>, k: nat)
    requires IsRun(run, acts) && k < |run|
    ensures TotalCount(run[k].tasks) == |run[k].closings| && |run[k].tasks| == |run[0].tasks|
  {
    if k == 0 {
      NothingCounted(run[0].tasks);
    } else {
      CountsAddUp(run, acts, k - 1);
      var s, t, a := run[k - 1], run[k], acts[k - 1];
      assert Step(s, t, a);
      if a.TaskStep? {
        TotalAfterUpdate(s.tasks, a.task, t.tasks[a.task]);
      }
    }
  }

  // ---- As long as a poll is not reopened, rescheduled or deleted ----

  predicate Disturbs(a: Action, id: nat) {
    (a.Reopen? || a.ReopenUnchanged? || a.Reschedule? || a.Delete?) && a.id == id
  }

  /** Between the `m`-th and the `k`-th state poll `id` is left alone in that way, whatever happens to others. */
  predicate Undisturbed(acts: seq<Action>, m: nat, k: nat, id: nat)
    requires k <= |acts|
  {
    forall j :: m <= j < k ==> !Disturbs(acts[j], id)
  }

  ghost predicate ClosedOrDue(s: State, id: nat) {
    id in s.polls && (s.polls[id].status == Closed || s.polls[id].IsDue(s.now))
  }

  ghost predicate ClosedIn(s: State, id: nat) {
    id in s.polls && s.polls[id].status == Closed
  }

  /** If `id` is in the task's snapshot it is closed or due, and closed once the task has dealt with it. */
  ghost predicate Progress(s: State, task: Task, id: nat) {
    match task
    case NotStarted => true
    case Looping(due, next, _) =>
      next <= |due| && (id in due ==> ClosedOrDue(s, id)) && (id in due[..next] ==> ClosedIn(s, id))
    case Finished(due, _) => id in due ==> ClosedIn(s, id)
  }

  lemma StepKeepsPoll(s: State, t: State, a: Action, id: nat)
    requires Step(s, t, a) && !Disturbs(a, id)
    ensures ClosedIn(s, id) ==> ClosedIn(t, id)
    ensures ClosedOrDue(s, id) ==> ClosedOrDue(t, id)
    ensures |t.tasks| == |s.tasks| && forall i :: 0 <= i < |s.tasks| && a != TaskStep(i) ==> t.tasks[i] == s.tasks[i]
  {}

  lemma StepKeepsProgress(s: State, t: State, a: Action, i: nat, id: nat)
    requires Step(s, t, a) && !Disturbs(a, id)
    requires i < |s.tasks| && Progress(s, s.tasks[i], id)
    ensures i < |t.tasks| && Progress(t, t.tasks[i], id)
  {
    StepKeepsPoll(s, t, a, id);
    if a == TaskStep(i) {
      if s.tasks[i].NotStarted? {
        var due :| ListsDueIds(due, s.polls, s.now) && t == s.(tasks := s.tasks[i := Looping(due, 0, 0)]);
        assert id in due ==> id in DueIds(s.polls, s.now);
      } else {
        var due, next := s.tasks[i].due, s.tasks[i].next;
        if next < |due| {
          assert due[..next + 1] == due[..next] + [due[next]];
        } else {
          assert due[..next] == due;
        }
      }
    }
  }

  lemma {:induction false} RunKeepsProgress(run: seq<State>, acts: seq<Action>, m: nat, k: nat, i: nat, id: nat)
    requires IsRun(run, acts) && m <= k < |run| && Undisturbed(acts, m, k, id)
    requires i < |run[m].tasks| && Progress(run[m], run[m].tasks[i], id)
    ensures i < |run[k].tasks| && Progress(run[k], run[k].tasks[i], id)
  {
    if m < k {
      RunKeepsProgress(run, acts, m, k - 1, i, id);
      assert Step(run[k - 1], run[k], acts[k - 1]);
      StepKeepsProgress(run[k - 1], run[k], acts[k - 1], i, id);
    }
  }

  lemma {:induction false} SnapshotIsKept(run: seq<State>, acts: seq<Action>, m: nat, k: nat, i: nat)
    requires IsRun(run, acts) && m <= k < |run| && i < |run[m].tasks| && run[m].tasks[i].Looping?
    ensures i < |run[k].tasks| && !run[k].tasks[i].NotStarted? && run[k].tasks[i].due == run[m].tasks[i].due
  {
    if m < k {
      SnapshotIsKept(run, acts, m, k - 1, i);
      assert Step(run[k - 1], run[k], acts[k - 1]);
    }
  }

  /**
   * However many tasks run and whatever happens to other polls, a poll that was due when a task took its
   * snapshot, and is not reopened, rescheduled or deleted, is closed once that task has finished.
   */
  lemma FinishedTaskHasClosedAllDue(run: seq<State>, acts: seq<Action>, m: nat, k: nat, i: nat, id: nat)
    requires IsRun(run, acts) && m < k < |run| && Undisturbed(acts, m, k, id)
    requires i < |run[m].tasks| && run[m].tasks[i] == NotStarted && acts[m] == TaskStep(i)
    requires id in run[m].polls && run[m].polls[id].status == Open
    requires run[m].polls[id].closesAt.Some? && run[m].polls[id].closesAt.value <= run[m].now
    ensures i < |run[k].tasks| && !run[k].tasks[i].NotStarted?
    ensures run[k].tasks[i].Finished? ==> ClosedIn(run[k], id)
  {
    assert Step(run[m], run[m + 1], acts[m]);
    var due := run[m + 1].tasks[i].due;
    assert ListsDueIds(due, run[m].polls, run[m].now);
    assert id in due;
    SnapshotIsKept(run, acts, m + 1, k, i);
    RunKeepsProgress(run, acts, m, k, i, id);
  }

  /** What a task has still to do, in steps. */
  function StepsLeft(task: Task): nat
    requires !task.NotStarted?
  {
    match task
    case Looping(due, next, _) => 1 + if next < |due| then |due| - next else 0
    case Finished(_, _) => 0
  }

  lemma ListOf(ids: set<nat>) returns (order: seq<nat>)
    ensures forall id :: id in order <==> id in ids
    ensures forall i, j :: 0 <= i < j < |order| ==> order[i] != order[j]
  {
    order := [];
    if ids != {} {
      var id :| id in ids;
      var rest := ListOf(ids - {id});
      order := rest + [id];
    }
  }

  /** A task that has not finished can always move, and each of its steps brings it one nearer to its end. */
  lemma TaskEnds(s: State, i: nat)
    requires i < |s.tasks|
    ensures (exists t :: TaskMoves(s, t, i)) <==> !s.tasks[i].Finished?
    ensures forall t :: TaskMoves(s, t, i) ==>
              && |t.tasks| == |s.tasks| && !t.tasks[i].NotStarted?
              && (!s.tasks[i].NotStarted? ==> StepsLeft(t.tasks[i]) + 1 == StepsLeft(s.tasks[i]))
  {
    match s.tasks[i]
    case NotStarted =>
      var due := ListOf(DueIds(s.polls, s.now));
      assert TaskMoves(s, s.(tasks := s.tasks[i := Looping(due, 0, 0)]), i);
    case Looping(due, next, count) =>
      if |due| <= next {
        assert TaskMoves(s, s.(tasks := s.tasks[i := Finished(due, count)]), i);
      } else if due[next] in s.polls && s.polls[due[next]].IsDue(s.now) {
        assert TaskMoves(s, s.(polls := s.polls[due[next] := s.polls[due[next]].CloseAt(s.now)],
                               tasks := s.tasks[i := Looping(due, next + 1, count + 1)],
                               closings := s.closings + [(i, due[next])]), i);
      } else {
        assert TaskMoves(s, s.(tasks := s.tasks[i := Looping(due, next + 1, count)]), i);
      }
    case Finished(_, _) =>
  }

  /** A poll reopened or rescheduled into the future is left alone, though it is still in the task's snapshot. */
  lemma ReopenedPollIsSkipped(s: State, t: State, i: nat)
    requires i < |s.tasks| && s.tasks[i].Looping? && s.tasks[i].next < |s.tasks[i].due| && TaskMoves(s, t, i)
    ensures var id := s.tasks[i].due[s.tasks[i].next];
            && t.tasks[i].Looping? && t.tasks[i].next == s.tasks[i].next + 1
            && (t.polls != s.polls <==>
                id in s.polls && s.polls[id].status == Open &&
                s.polls[id].closesAt.Some? && s.polls[id].closesAt.value <= s.now)
            && t.tasks[i].count == s.tasks[i].count + if t.polls == s.polls then 0 else 1
  {}
}
