/** The question lock: writes to a poll's questions against its lifecycle, over every interleaving. */
module PollContentLock {
  import opened Options
  import opened PollRows

  /** An editor writes a question, option or section; `enclosed` when guard and write share one transaction. */
  datatype Process = Editor(enclosed: bool) | Opener | Closer | Reopener

  type Config = seq<Process>

  datatype PC =
    | Idle       // before the poll row is locked
    | Holding    // the poll row is locked, its status about to be checked
    | Writing    // guard passed, write to come

  /** The poll's status, the holder of its row lock, and the committed writes to its questions. */
  datatype State = State(status: Status, lock: Option<nat>, content: seq<nat>, pcs: seq<PC>)

  ghost predicate Init(c: Config, s: State) {
    s == State(Draft, None, [], s.pcs) && |s.pcs| == |c| && forall i :: 0 <= i < |s.pcs| ==> s.pcs[i] == Idle
  }

  /** The transition a lifecycle process makes, if the status allows it. */
  function Transition(p: Process, status: Status): Option<Status> {
    match (p, status)
    case (Opener, Draft) => Some(Open)
    case (Closer, Open) => Some(Closed)
    case (Reopener, Closed) => Some(Open)
    case _ => None
  }

  ghost predicate Step(c: Config, s: State, t: State, i: nat) {
    && i < |c| == |s.pcs|
    && match s.pcs[i]
       case Idle =>
         s.lock == None && t == s.(lock := Some(i), pcs := s.pcs[i := Holding])
       case Holding =>
         if c[i].Editor? then
           if s.status != Draft then
             // PollQuestionLockedError rolls everything back
             t == s.(lock := None, pcs := s.pcs[i := Idle])
           else
             // the guard's own atomic block ends: only an enclosing transaction keeps the lock
             t == s.(lock := if c[i].enclosed then Some(i) else None, pcs := s.pcs[i := Writing])
         else
           t == s.(status := if Transition(c[i], s.status).Some? then Transition(c[i], s.status).value else s.status,
                   lock := None, pcs := s.pcs[i := Idle])
       case Writing =>
         // commit or roll back; an enclosing transaction releases the row lock only now
         var lock := if c[i].Editor? && c[i].enclosed then None else s.lock;
         || t == s.(content := s.content + [i], lock := lock, pcs := s.pcs[i := Idle])
         || t == s.(lock := lock, pcs := s.pcs[i := Idle])
  }

  ghost predicate Next(c: Config, s: State, t: State) {
    exists i: nat :: Step(c, s, t, i)
  }

  ghost predicate IsRun(c: Config, run: seq<State>) {
    run != [] && Init(c, run[0]) && forall k :: 0 < k < |run| ==> Next(c, run[k - 1], run[k])
  }

  /** Writes are committed only in a step that finds the poll in DRAFT and leaves it there. */
  ghost predicate WritesOnlyInDraft(s: State, t: State) {
    s.content != t.content ==> s.status == Draft == t.status
  }

  ghost predicate AllEnclosed(c: Config) {
    forall i :: 0 <= i < |c| && c[i].Editor? ==> c[i].enclosed
  }

  ghost predicate ProcessInv(c: Config, s: State, i: nat)
    requires i < |c| == |s.pcs|
  {
    && (s.lock == Some(i) <==> s.pcs[i] == Holding || (s.pcs[i] == Writing && c[i].Editor? && c[i].enclosed))
    && (s.pcs[i] == Writing ==> c[i].Editor?)
    && (s.pcs[i] == Writing && c[i].enclosed ==> s.status == Draft)
  }

  ghost predicate Inv(c: Config, s: State) {
    && |s.pcs| == |c| && (s.lock.Some? ==> s.lock.value < |c|)
    && forall i :: 0 <= i < |c| ==> ProcessInv(c, s, i)
  }

  lemma StepKeepsInv(c: Config, s: State, t: State, i: nat)
    requires Inv(c, s) && Step(c, s, t, i)
    ensures Inv(c, t)
    ensures AllEnclosed(c) ==> WritesOnlyInDraft(s, t)
    ensures s.status != Draft ==> t.status != Draft
  {
    assert ProcessInv(c, s, i);
    forall j | 0 <= j < |c|
      ensures ProcessInv(c, t, j)
    {
      assert ProcessInv(c, s, j);
    }
  }

  lemma {:induction false} RunKeepsInv(c: Config, run: seq<State>, k: nat)
    requires IsRun(c, run) && k < |run|
    ensures Inv(c, run[k])
  {
    if k != 0 {
      RunKeepsInv(c, run, k - 1);
      var i: nat :| Step(c, run[k - 1], run[k], i);
      StepKeepsInv(c, run[k - 1], run[k], i);
    }
  }

  lemma RunStep(c: Config, run: seq<State>, k: nat)
    requires IsRun(c, run) && 0 < k < |run| && AllEnclosed(c)
    ensures WritesOnlyInDraft(run[k - 1], run[k])
    ensures run[k - 1].status != Draft ==> run[k].status != Draft
  {
    RunKeepsInv(c, run, k - 1);
    var i: nat :| Step(c, run[k - 1], run[k], i);
    StepKeepsInv(c, run[k - 1], run[k], i);
  }

  // ---- What is let through ----

  /** The guard lets an editor through exactly in DRAFT, and keeps the lock exactly for an enclosing transaction. */
  lemma GuardPassesExactlyWhen(c: Config, s: State, t: State, i: nat)
    requires Step(c, s, t, i) && s.pcs[i] == Holding && c[i].Editor?
    ensures |t.pcs| == |s.pcs|
    ensures t.pcs[i] == Writing <==> s.status == Draft
    ensures t.pcs[i] == Idle <==> s.status != Draft
    ensures t.lock == Some(i) <==> s.status == Draft && c[i] == Editor(true)
    ensures t.lock == None <==> !(s.status == Draft && c[i] == Editor(true))
    ensures t.status == s.status && t.content == s.content
  {}

  /** Content changes by one committed write at a time, of an editor past its guard. */
  lemma ContentChangesOnlyByWrites(c: Config, s: State, t: State, i: nat)
    requires Step(c, s, t, i)
    ensures t.content == s.content || (s.pcs[i] == Writing && t.content == s.content + [i] && t.status == s.status)
  {}

  /** The status moves exactly from DRAFT to OPEN, OPEN to CLOSED, and CLOSED to OPEN, each by its own call. */
  lemma StatusMovesExactlyWhen(c: Config, s: State, t: State, i: nat)
    requires Step(c, s, t, i)
    ensures t.status != s.status <==>
            s.pcs[i] == Holding &&
            (c[i], s.status) in {(Opener, Draft), (Closer, Open), (Reopener, Closed)}
    ensures t.status != s.status ==> t.status == if c[i] == Closer then Closed else Open
  {}

  lemma Move(c: Config, s: State, i: nat) returns (t: State)
    requires i < |c| == |s.pcs| && (s.lock == None || s.pcs[i] != Idle)
    ensures Step(c, s, t, i)
  {
    match s.pcs[i]
    case Idle => t := s.(lock := Some(i), pcs := s.pcs[i := Holding]);
    case Holding =>
      if !c[i].Editor? {
        t := s.(status := if Transition(c[i], s.status).Some? then Transition(c[i], s.status).value else s.status,
                lock := None, pcs := s.pcs[i := Idle]);
      } else if s.status != Draft {
        t := s.(lock := None, pcs := s.pcs[i := Idle]);
      } else {
        t := s.(lock := if c[i].enclosed then Some(i) else None, pcs := s.pcs[i := Writing]);
      }
    case Writing =>
      t := s.(lock := if c[i].Editor? && c[i].enclosed then None else s.lock, pcs := s.pcs[i := Idle]);
  }

  /** In no run do the processes block each other: only a held lock makes one wait, and its holder can move. */
  lemma NobodyIsStuck(c: Config, run: seq<State>, k: nat, i: nat)
    requires IsRun(c, run) && k < |run| && i < |c|
    ensures |run[k].pcs| == |c| && (run[k].lock.Some? ==> run[k].lock.value < |c|)
    ensures (exists t :: Step(c, run[k], t, i)) <==> run[k].lock == None || run[k].pcs[i] != Idle
    ensures run[k].lock.Some? ==> exists t :: Step(c, run[k], t, run[k].lock.value)
  {
    RunKeepsInv(c, run, k);
    var s := run[k];
    assert ProcessInv(c, s, i);
    if s.lock == None || s.pcs[i] != Idle {
      var _ := Move(c, s, i);
    }
    if s.lock.Some? {
      assert ProcessInv(c, s, s.lock.value);
      var _ := Move(c, s, s.lock.value);
    }
  }

  lemma Extend(c: Config, run: seq<State>, t: State, i: nat) returns (longer: seq<State>)
    requires IsRun(c, run) && Step(c, run[|run| - 1], t, i)
    ensures IsRun(c, longer) && |longer| == |run| + 1 && longer[..|run|] == run
    ensures longer[|longer| - 1] == t && longer[|longer| - 2] == run[|run| - 1]
  {
    longer := run + [t];
  }

  /** From any state in DRAFT with the lock free, an editor that is idle can get its write committed. */
  lemma DraftIsEditable(c: Config, run: seq<State>, e: nat) returns (longer: seq<State>)
    requires IsRun(c, run) && e < |c| && c[e].Editor?
    requires var s := run[|run| - 1]; s.status == Draft && s.lock == None && |s.pcs| == |c| && s.pcs[e] == Idle
    ensures IsRun(c, longer) && |longer| == |run| + 3 && longer[..|run|] == run
    ensures longer[|longer| - 1] == run[|run| - 1].(content := run[|run| - 1].content + [e])
  {
    var s := run[|run| - 1];
    var lock := if c[e].enclosed then Some(e) else None;
    var guarding, writing := s.pcs[e := Holding], s.pcs[e := Holding][e := Writing];
    longer := Extend(c, run, s.(lock := Some(e), pcs := guarding), e);
    longer := Extend(c, longer, s.(lock := lock, pcs := writing), e);
    var end := s.(content := s.content + [e], pcs := writing[e := Idle]);
    assert writing[e := Idle] == s.pcs;
    longer := Extend(c, longer, end, e);
  }

  // ---- What is kept out ----

  /** From the moment a poll leaves DRAFT its content never changes again. */
  lemma {:induction false} ContentIsFrozen(c: Config, run: seq<State>, k: nat, m: nat)
    requires IsRun(c, run) && AllEnclosed(c) && k <= m < |run| && run[k].status != Draft
    ensures run[m].content == run[k].content && run[m].status != Draft
  {
    if k < m {
      ContentIsFrozen(c, run, k, m - 1);
      RunStep(c, run, m);
    }
  }

  /** Without an enclosing transaction the poll can be opened between guard and write. */
  lemma UnenclosedEditorWritesLate(c: Config, e: nat, o: nat) returns (run: seq<State>)
    requires e < |c| && c[e] == Editor(false) && o < |c| && c[o] == Opener
    ensures IsRun(c, run) && 1 < |run| && !WritesOnlyInDraft(run[|run| - 2], run[|run| - 1])
  {
    var idle := seq(|c|, _ => Idle);
    run := [State(Draft, None, [], idle)];
    var guarding, writing := idle[e := Holding], idle[e := Holding][e := Writing];
    run := Extend(c, run, State(Draft, Some(e), [], guarding), e);
    run := Extend(c, run, State(Draft, None, [], writing), e);
    run := Extend(c, run, State(Draft, Some(o), [], writing[o := Holding]), o);
    run := Extend(c, run, State(Open, None, [], writing[o := Holding][o := Idle]), o);
    run := Extend(c, run, State(Open, None, [] + [e], writing[o := Holding][o := Idle][e := Idle]), e);
  }

  lemma {:induction false} StaysDraft(c: Config, run: seq<State>, k: nat)
    requires IsRun(c, run) && k < |run| && Opener !in c
    ensures run[k].status == Draft
  {
    if k != 0 {
      StaysDraft(c, run, k - 1);
      var i: nat :| Step(c, run[k - 1], run[k], i);
      assert c[i] in c;
    }
  }

  /**
   * The lock does its work in every run exactly when every editor holds an enclosing transaction, or
   * nobody opens polls.
   */
  lemma LockHoldsExactlyWhen(c: Config)
    ensures (forall run, k :: IsRun(c, run) && 0 < k < |run| ==> WritesOnlyInDraft(run[k - 1], run[k])) <==>
            AllEnclosed(c) || Opener !in c
  {
    if AllEnclosed(c) {
      forall run, k | IsRun(c, run) && 0 < k < |run|
        ensures WritesOnlyInDraft(run[k - 1], run[k])
      {
        RunStep(c, run, k);
      }
    } else if Opener !in c {
      forall run, k | IsRun(c, run) && 0 < k < |run|
        ensures WritesOnlyInDraft(run[k - 1], run[k])
      {
        StaysDraft(c, run, k - 1);
        StaysDraft(c, run, k);
      }
    } else {
      var e :| 0 <= e < |c| && c[e] == Editor(false);
      var o :| 0 <= o < |c| && c[o] == Opener;
      var run := UnenclosedEditorWritesLate(c, e, o);
      assert !WritesOnlyInDraft(run[|run| - 1 - 1], run[|run| - 1]);
    }
  }
}
