/** `Poll.save`: the anonymity flags, checked against a row that is read without a lock. */
module PollAnonymity {
  import opened Options

  datatype Flags = Flags(staffAnonymous: bool, publicAnonymous: bool)

  /** One call of `save`: the flags on the instance, and whether the save writes those columns. */
  datatype Save = Save(flags: Flags, writesFlags: bool)

  datatype PC = Start | Writing(stored: Option<Flags>) | Done | Refused | Duplicate

  datatype State = State(row: Option<Flags>, pcs: seq<PC>)

  ghost predicate Init(calls: seq<Save>, s: State) {
    |s.pcs| == |calls| && forall i :: 0 <= i < |s.pcs| ==> s.pcs[i] == Start
  }

  ghost predicate Step(calls: seq<Save>, s: State, t: State, i: nat) {
    && i < |calls| == |s.pcs|
    && match s.pcs[i]
       case Start =>
         // the stored row is read, without locking it
         t == s.(pcs := s.pcs[i := if s.row.Some? && s.row.value != calls[i].flags then Refused else Writing(s.row)])
       case Writing(None) =>
         // an INSERT, which fails when another one came first
         t == if s.row == None then State(Some(calls[i].flags), s.pcs[i := Done]) else s.(pcs := s.pcs[i := Duplicate])
       case Writing(Some(_)) =>
         // an UPDATE of whatever the row is by now
         t == State(if s.row.Some? && calls[i].writesFlags then Some(calls[i].flags) else s.row, s.pcs[i := Done])
       case _ => false
  }

  ghost predicate Next(calls: seq<Save>, s: State, t: State) {
    exists i: nat :: Step(calls, s, t, i)
  }

  ghost predicate IsRun(calls: seq<Save>, run: seq<State>) {
    run != [] && Init(calls, run[0]) && forall k :: 0 < k < |run| ==> Next(calls, run[k - 1], run[k])
  }

  /** A call past its check carries the flags the row has now, however long ago it looked. */
  ghost predicate Inv(calls: seq<Save>, s: State) {
    |s.pcs| == |calls| && forall i :: 0 <= i < |s.pcs| ==>
      match s.pcs[i]
      case Writing(Some(stored)) => s.row == Some(stored) && stored == calls[i].flags
      case Refused => s.row.Some? && s.row.value != calls[i].flags
      case Done => s.row == Some(calls[i].flags)
      case Duplicate => s.row.Some?
      case _ => true
  }

  lemma {:induction false} RunKeepsInv(calls: seq<Save>, run: seq<State>, k: nat)
    requires IsRun(calls, run) && k < |run|
    ensures Inv(calls, run[k])
    ensures 0 < k && run[k - 1].row.Some? ==> run[k].row == run[k - 1].row
  {
    if k != 0 {
      RunKeepsInv(calls, run, k - 1);
      var i: nat :| Step(calls, run[k - 1], run[k], i);
    }
  }

  /** Once a poll exists its flags never change, in any interleaving of saves. */
  lemma {:induction false} FlagsNeverChange(calls: seq<Save>, run: seq<State>, k: nat, m: nat)
    requires IsRun(calls, run) && k <= m < |run| && run[k].row.Some?
    ensures run[m].row == run[k].row
  {
    if k < m {
      FlagsNeverChange(calls, run, k, m - 1);
      RunKeepsInv(calls, run, m);
    }
  }

  /** A poll comes into being by one call's INSERT, with the flags of that call. */
  lemma CreatedWithItsOwnFlags(calls: seq<Save>, s: State, t: State, i: nat)
    requires Step(calls, s, t, i) && s.row == None && t.row != None
    ensures s.pcs[i] == Writing(None) && t.pcs[i] == Done && t.row == Some(calls[i].flags)
  {}

  lemma {:induction false} RowHasACreator(calls: seq<Save>, run: seq<State>, k: nat)
    requires IsRun(calls, run) && run[0].row == None && k < |run| && run[k].row.Some?
    ensures exists i :: 0 <= i < |run[k].pcs| == |calls| && run[k].pcs[i] == Done && run[k].row == Some(calls[i].flags)
  {
    RunKeepsInv(calls, run, k);
    var j: nat :| Step(calls, run[k - 1], run[k], j);
    if run[k - 1].row.Some? {
      RowHasACreator(calls, run, k - 1);
      var i :| 0 <= i < |calls| && run[k - 1].pcs[i] == Done && run[k - 1].row == Some(calls[i].flags);
      assert run[k].pcs[i] == Done;
    } else {
      CreatedWithItsOwnFlags(calls, run[k - 1], run[k], j);
    }
  }

  ghost predicate IsOver(calls: seq<Save>, s: State) {
    forall i: nat, t :: !Step(calls, s, t, i)
  }

  lemma MovesUnlessOver(calls: seq<Save>, s: State, i: nat)
    requires i < |calls| == |s.pcs|
    ensures (exists t :: Step(calls, s, t, i)) <==> s.pcs[i].Start? || s.pcs[i].Writing?
  {
    var checked := if s.row.Some? && s.row.value != calls[i].flags then Refused else Writing(s.row);
    assert s.pcs[i].Start? ==> Step(calls, s, s.(pcs := s.pcs[i := checked]), i);
    assert s.pcs[i] == Writing(None) && s.row.Some? ==> Step(calls, s, s.(pcs := s.pcs[i := Duplicate]), i);
    assert s.pcs[i] == Writing(None) && s.row == None ==>
        Step(calls, s, State(Some(calls[i].flags), s.pcs[i := Done]), i);
    if s.pcs[i].Writing? && s.pcs[i].stored.Some? {
      var row := if s.row.Some? && calls[i].writesFlags then Some(calls[i].flags) else s.row;
      assert Step(calls, s, State(row, s.pcs[i := Done]), i);
    }
  }

  /**
   * Where nobody can move any more there is a row, with the flags of a call that has saved it; every saving
   * call agrees with them, every refused one differs, and the others came too late to insert.
   */
  lemma EverySaveIsAnswered(calls: seq<Save>, run: seq<State>)
    requires IsRun(calls, run) && calls != []
    requires IsOver(calls, run[|run| - 1])
    ensures var s := run[|run| - 1];
            && |s.pcs| == |calls| && s.row.Some?
            && (run[0].row == None ==>
                  exists i :: 0 <= i < |calls| && s.pcs[i] == Done && s.row == Some(calls[i].flags))
            && forall i :: 0 <= i < |calls| ==>
                 && s.pcs[i] in {Done, Refused, Duplicate}
                 && (s.pcs[i] == Done ==> calls[i].flags == s.row.value)
                 && (s.pcs[i] == Refused ==> calls[i].flags != s.row.value)
  {
    var s := run[|run| - 1];
    RunKeepsInv(calls, run, |run| - 1);
    forall i | 0 <= i < |calls|
      ensures s.pcs[i] in {Done, Refused, Duplicate}
    {
      MovesUnlessOver(calls, s, i);
    }
    assert s.pcs[0] in {Done, Refused, Duplicate};
    if run[0].row == None {
      RowHasACreator(calls, run, |run| - 1);
    }
  }

  predicate Decided(pc: PC, wanted: Flags, stored: Flags) {
    pc == Start || (pc == Refused <==> stored != wanted)
  }

  lemma StepDecides(calls: seq<Save>, s: State, t: State, j: nat, i: nat, stored: Flags)
    requires Step(calls, s, t, j) && Inv(calls, s) && i < |calls| && s.row == Some(stored)
    requires Decided(s.pcs[i], calls[i].flags, stored)
    ensures |t.pcs| == |calls| && Decided(t.pcs[i], calls[i].flags, stored)
  {}

  /** On an existing poll a save is refused exactly when its flags differ from the stored ones. */
  lemma RefusedExactlyWhenDifferent(calls: seq<Save>, run: seq<State>, k: nat, m: nat, i: nat)
    requires IsRun(calls, run) && k <= m < |run| && run[k].row.Some?
    requires i < |calls| && i < |run[k].pcs| && run[k].pcs[i] == Start
    ensures i < |run[m].pcs|
    ensures Decided(run[m].pcs[i], calls[i].flags, run[k].row.value)
    decreases m
  {
    if k == m {
      RunKeepsInv(calls, run, k);
    } else {
      var stored := run[k].row.value;
      RefusedExactlyWhenDifferent(calls, run, k, m - 1, i);
      assert run[m - 1].row == Some(stored) by {
        FlagsNeverChange(calls, run, k, m - 1);
      }
      RunKeepsInv(calls, run, m - 1);
      var j: nat :| Step(calls, run[m - 1], run[m], j);
      StepDecides(calls, run[m - 1], run[m], j, i, stored);
    }
  }
}
