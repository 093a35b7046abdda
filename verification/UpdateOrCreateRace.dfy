/**
 * `update_or_create_with_race_protection`, for any number of callers with the same lookup.
 * Django's own `update_or_create` locks the row it finds; the recovery of the wrapper does not.
 */
module UpdateOrCreateRace {
  import opened Options

  type Attrs = map<string, int>

  /** One call: the values it wants on the row, and whether the row they make is valid. */
  datatype Caller = Caller(defaults: Attrs, valid: bool)

  datatype Config = Config(callers: seq<Caller>, initial: Option<Attrs>)

  datatype PC =
    | Start                     // locked lookup to come
    | Holding(read: Attrs)      // found and locked; apply defaults, save, commit
    | Creating                  // not found; full_clean to come
    | Inserting                 // INSERT to come
    | Uncommitted               // inserted, commit to come
    | Recovering                // exception caught, transaction rolled back
    | Stale(read: Attrs)        // re-fetched without a lock; apply defaults, save
    | Returned(created: bool)
    | Raised

  /** The committed row, who holds its lock, whose INSERT is uncommitted, and where each caller is. */
  datatype State = State(row: Option<Attrs>, lock: Option<nat>, inserter: Option<nat>, pcs: seq<PC>)

  ghost predicate Init(c: Config, s: State) {
    && s.row == c.initial && s.lock == None && s.inserter == None
    && |s.pcs| == |c.callers| && forall i :: 0 <= i < |s.pcs| ==> s.pcs[i] == Start
  }

  /** Caller `i` turns `s` into `t`; nothing else moves. */
  ghost predicate Step(c: Config, s: State, t: State, i: nat) {
    && i < |c.callers| == |s.pcs| == |t.pcs| && t.pcs == s.pcs[i := t.pcs[i]]
    && var caller := c.callers[i];
       match s.pcs[i]
       case Start =>
         if s.row == None then t == s.(pcs := s.pcs[i := Creating])
         else s.lock == None && t == s.(lock := Some(i), pcs := s.pcs[i := Holding(s.row.value)])
       case Holding(read) =>
         if caller.valid
         then t == s.(row := Some(read + caller.defaults), lock := None, pcs := s.pcs[i := Returned(false)])
         else t == s.(lock := None, pcs := s.pcs[i := Recovering])
       case Creating =>
         t == s.(pcs := s.pcs[i := if !caller.valid || s.row.Some? then Recovering else Inserting])
       case Inserting =>
         // waits for an uncommitted INSERT; a committed row sends Django back to its locked lookup
         && s.inserter == None
         && t == if s.row.Some? then s.(pcs := s.pcs[i := Start])
                 else s.(inserter := Some(i), pcs := s.pcs[i := Uncommitted])
       case Uncommitted =>
         t == s.(row := Some(caller.defaults), inserter := None, pcs := s.pcs[i := Returned(true)])
       case Recovering =>
         t == s.(pcs := s.pcs[i := if s.row == None then Raised else Stale(s.row.value)])
       case Stale(read) =>
         if caller.valid
         then s.lock == None && t == s.(row := Some(read + caller.defaults), pcs := s.pcs[i := Returned(false)])
         else t == s.(pcs := s.pcs[i := Raised])
       case _ => false
  }

  ghost predicate Next(c: Config, s: State, t: State) {
    exists i: nat :: Step(c, s, t, i)
  }

  ghost predicate IsRun(c: Config, run: seq<State>) {
    run != [] && Init(c, run[0]) && forall k :: 0 < k < |run| ==> Next(c, run[k - 1], run[k])
  }

  // ---- What every step keeps ----

  ghost predicate CallerInv(c: Config, s: State, i: nat)
    requires i < |c.callers| == |s.pcs|
  {
    && (s.pcs[i].Holding? <==> s.lock == Some(i)) && (s.pcs[i].Uncommitted? <==> s.inserter == Some(i))
    && match s.pcs[i]
       case Holding(read) => s.row == Some(read)
       case Inserting => c.callers[i].valid
       case Uncommitted => c.callers[i].valid && s.row == None
       case Recovering => c.callers[i].valid ==> s.row.Some?
       case Stale(_) => s.row.Some?
       case Returned(created) => c.callers[i].valid && s.row.Some? && (created ==> c.initial == None)
       case Raised => !c.callers[i].valid
       case _ => true
  }

  ghost predicate Created(s: State, i: nat) {
    i < |s.pcs| && s.pcs[i] == Returned(true)
  }

  ghost predicate Inv(c: Config, s: State) {
    && |s.pcs| == |c.callers| && (c.initial.Some? ==> s.row.Some?)
    && (s.lock.Some? ==> s.lock.value < |s.pcs|) && (s.inserter.Some? ==> s.inserter.value < |s.pcs|)
    && (s.row == None ==> forall i: nat :: !Created(s, i))
    && (forall i :: 0 <= i < |s.pcs| ==> CallerInv(c, s, i))
    && (forall i: nat, j: nat :: Created(s, i) && Created(s, j) ==> i == j)
    && (s.row.Some? && c.initial == None ==> exists i: nat :: Created(s, i))
  }

  lemma StepKeepsInv(c: Config, s: State, t: State, i: nat)
    requires Inv(c, s) && Step(c, s, t, i)
    ensures Inv(c, t)
  {
    assert CallerInv(c, s, i);
    forall j | 0 <= j < |t.pcs|
      ensures CallerInv(c, t, j)
    {
      assert CallerInv(c, s, j);
    }
    forall j: nat
      ensures Created(t, j) <==> Created(s, j) || (j == i && s.pcs[i] == Uncommitted)
    {}
    if s.row.Some? && c.initial == None {
      var j: nat :| Created(s, j);
      assert Created(t, j);
    } else if s.row == None && t.row.Some? {
      assert Created(t, i);
    }
  }

  lemma {:induction false} RunKeepsInv(c: Config, run: seq<State>, k: nat)
    requires IsRun(c, run) && k < |run|
    ensures Inv(c, run[k])
  {
    if k != 0 {
      RunKeepsInv(c, run, k - 1);
      var i: nat :| Step(c, run[k - 1], run[k], i);
      StepKeepsInv(c, run[k - 1], run[k], i);
    }
  }

  // ---- What the callers get ----

  /** Valid calls never raise, invalid ones never return; a new row has exactly one creator. */
  lemma OutcomesOfCalls(c: Config, run: seq<State>, k: nat)
    requires IsRun(c, run) && k < |run|
    ensures |run[k].pcs| == |c.callers|
    ensures forall i :: 0 <= i < |c.callers| ==>
              if c.callers[i].valid then run[k].pcs[i] != Raised else !run[k].pcs[i].Returned?
    ensures forall i: nat, j: nat :: Created(run[k], i) && Created(run[k], j) ==> i == j
    ensures (exists i: nat :: Created(run[k], i)) <==> c.initial == None && run[k].row.Some?
  {
    RunKeepsInv(c, run, k);
    forall i | 0 <= i < |c.callers|
      ensures if c.callers[i].valid then run[k].pcs[i] != Raised else !run[k].pcs[i].Returned?
      ensures Created(run[k], i) ==> c.initial == None && run[k].row.Some?
    {
      assert CallerInv(c, run[k], i);
    }
  }

  // ---- Every call gets its answer ----

  ghost predicate CanMove(c: Config, s: State, i: nat) {
    exists t :: Step(c, s, t, i)
  }

  lemma HolderMoves(c: Config, s: State, i: nat)
    requires Inv(c, s) && i < |s.pcs| && (s.pcs[i].Holding? || s.pcs[i].Uncommitted?)
    ensures CanMove(c, s, i)
  {
    var caller := c.callers[i];
    if s.pcs[i].Uncommitted? {
      assert Step(c, s, s.(row := Some(caller.defaults), inserter := None, pcs := s.pcs[i := Returned(true)]), i);
    } else if caller.valid {
      var row := Some(s.pcs[i].read + caller.defaults);
      assert Step(c, s, s.(row := row, lock := None, pcs := s.pcs[i := Returned(false)]), i);
    } else {
      assert Step(c, s, s.(lock := None, pcs := s.pcs[i := Recovering]), i);
    }
  }

  /** A caller that is not done can move, or waits for a lock or an insert of another one. */
  lemma MovesOrWaits(c: Config, s: State, i: nat)
    requires Inv(c, s) && i < |s.pcs| && !s.pcs[i].Returned? && s.pcs[i] != Raised
    ensures CanMove(c, s, i) || s.lock.Some? || s.inserter.Some?
  {
    if s.lock == None && s.inserter == None {
      assert CallerInv(c, s, i);
      var caller := c.callers[i];
      match s.pcs[i]
      case Start =>
        if s.row == None {
          assert Step(c, s, s.(pcs := s.pcs[i := Creating]), i);
        } else {
          assert Step(c, s, s.(lock := Some(i), pcs := s.pcs[i := Holding(s.row.value)]), i);
        }
      case Creating =>
        assert Step(c, s, s.(pcs := s.pcs[i := if !caller.valid || s.row.Some? then Recovering else Inserting]), i);
      case Inserting =>
        if s.row.Some? {
          assert Step(c, s, s.(pcs := s.pcs[i := Start]), i);
        } else {
          assert Step(c, s, s.(inserter := Some(i), pcs := s.pcs[i := Uncommitted]), i);
        }
      case Recovering =>
        assert Step(c, s, s.(pcs := s.pcs[i := if s.row == None then Raised else Stale(s.row.value)]), i);
      case Stale(read) =>
        if caller.valid {
          assert Step(c, s, s.(row := Some(read + caller.defaults), pcs := s.pcs[i := Returned(false)]), i);
        } else {
          assert Step(c, s, s.(pcs := s.pcs[i := Raised]), i);
        }
      case _ =>
    }
  }

  ghost predicate NobodyCanMove(c: Config, s: State) {
    forall i: nat :: !CanMove(c, s, i)
  }

  lemma NobodyHolds(c: Config, s: State)
    requires Inv(c, s) && NobodyCanMove(c, s)
    ensures s.lock == None && s.inserter == None
  {
    if s.lock.Some? {
      assert CallerInv(c, s, s.lock.value);
      HolderMoves(c, s, s.lock.value);
      assert false;
    }
    if s.inserter.Some? {
      assert CallerInv(c, s, s.inserter.value);
      HolderMoves(c, s, s.inserter.value);
      assert false;
    }
  }

  /**
   * There is no deadlock: when nobody can move, every valid call has returned and every other has raised; if
   * there was no row at first, exactly one of the valid ones has created it.
   */
  lemma EveryCallIsAnswered(c: Config, run: seq<State>)
    requires IsRun(c, run) && NobodyCanMove(c, run[|run| - 1])
    ensures var s := run[|run| - 1];
            && |s.pcs| == |c.callers|
            && (forall i :: 0 <= i < |s.pcs| ==> if c.callers[i].valid then s.pcs[i].Returned? else s.pcs[i] == Raised)
            && (forall i: nat, j: nat :: Created(s, i) && Created(s, j) ==> i == j)
            && ((exists i: nat :: Created(s, i)) <==>
                  c.initial == None && exists i :: 0 <= i < |c.callers| && c.callers[i].valid)
  {
    var k := |run| - 1;
    var s := run[k];
    RunKeepsInv(c, run, k);
    OutcomesOfCalls(c, run, k);
    NobodyHolds(c, s);
    forall i | 0 <= i < |s.pcs|
      ensures if c.callers[i].valid then s.pcs[i].Returned? else s.pcs[i] == Raised
      ensures Created(s, i) ==> c.callers[i].valid
      ensures s.pcs[i].Returned? ==> s.row.Some?
    {
      assert CallerInv(c, s, i);
      if !s.pcs[i].Returned? && s.pcs[i] != Raised {
        MovesOrWaits(c, s, i);
      }
    }
  }

  ghost predicate Carries(row: Option<Attrs>, values: Attrs) {
    row.Some? && forall f :: f in values ==> f in row.value && row.value[f] == values[f]
  }

  /** The step in which a call returns leaves its defaults on the row; a step of a failing call leaves the row alone. */
  lemma ReturningAppliesTheDefaults(c: Config, s: State, t: State, i: nat)
    requires Inv(c, s) && Step(c, s, t, i)
    ensures t.pcs[i].Returned? ==> Carries(t.row, c.callers[i].defaults)
    ensures !t.pcs[i].Returned? || !c.callers[i].valid ==> t.row == s.row
  {
    assert CallerInv(c, s, i);
  }

  ghost predicate OnlySetBy(c: Config, f: string, j: nat) {
    j < |c.callers| && f in c.callers[j].defaults
    && forall i :: 0 <= i < |c.callers| && i != j ==> f !in c.callers[i].defaults
  }

  // ---- Which callers can lose an update ----

  /** A returned call's value stays on the row, in the fields nobody else sets. */
  ghost predicate Keeps(c: Config, s: State, j: nat, f: string) {
    j < |s.pcs| && s.pcs[j].Returned? && OnlySetBy(c, f, j) ==> Carries(s.row, map[f := c.callers[j].defaults[f]])
  }

  ghost predicate NothingIsLost(c: Config) {
    forall run, k, j: nat, f :: IsRun(c, run) && 0 <= k < |run| ==> Keeps(c, run[k], j, f)
  }

  ghost predicate IsOther(c: Config, j: nat, i: nat) {
    i < |c.callers| && i != j && c.callers[i].valid
  }

  /** Of three valid callers one, `j`, sets a field no other caller sets. */
  ghost predicate ThreeMeet(c: Config, j: nat, f: string, i: nat, m: nat) {
    OnlySetBy(c, f, j) && c.callers[j].valid && IsOther(c, j, i) && IsOther(c, j, m) && i != m
  }

  ghost predicate ThreeCanMeet(c: Config) {
    exists j, f, i, m :: ThreeMeet(c, j, f, i, m)
  }

  /** With a row at first no valid call ever gets past the locked lookup. */
  ghost predicate OnlyFinds(c: Config, s: State)
    requires |c.callers| == |s.pcs|
  {
    s.row.Some? && forall i :: 0 <= i < |s.pcs| && c.callers[i].valid ==>
      s.pcs[i].Start? || s.pcs[i].Holding? || s.pcs[i].Returned?
  }

  /** An unlocked copy was read after `j` had returned, and has its value. */
  ghost predicate StaleAfter(c: Config, s: State, j: nat, f: string)
    requires j < |c.callers| == |s.pcs| && OnlySetBy(c, f, j)
  {
    forall i :: 0 <= i < |s.pcs| && IsOther(c, j, i) && s.pcs[i].Stale? ==>
      s.pcs[j].Returned? && Carries(Some(s.pcs[i].read), map[f := c.callers[j].defaults[f]])
  }

  ghost predicate NothingLostSoFar(c: Config, s: State, j: nat, f: string)
    requires j < |c.callers| == |s.pcs| && OnlySetBy(c, f, j)
  {
    && Inv(c, s) && Keeps(c, s, j, f)
    && if c.initial.Some? then OnlyFinds(c, s) else StaleAfter(c, s, j, f)
  }

  /** Among two callers, whoever re-fetches the row finds the other one's. */
  lemma TwoCallersAgree(c: Config, s: State, j: nat, f: string, i: nat)
    requires j < |c.callers| == |s.pcs| && OnlySetBy(c, f, j) && c.callers[j].valid && c.initial == None
    requires NothingLostSoFar(c, s, j, f) && (forall x, y :: !ThreeMeet(c, j, f, x, y))
    requires IsOther(c, j, i) && s.pcs[i] == Recovering && s.row.Some?
    ensures s.pcs[j].Returned? && Carries(s.row, map[f := c.callers[j].defaults[f]])
  {
    var q: nat :| Created(s, q);
    assert CallerInv(c, s, q);
    assert !ThreeMeet(c, j, f, i, q);
    assert q == j;
  }

  lemma StepLosesNothing(c: Config, s: State, t: State, i: nat, j: nat, f: string)
    requires j < |c.callers| == |s.pcs| && OnlySetBy(c, f, j) && c.callers[j].valid
    requires c.initial.Some? || forall x, y :: !ThreeMeet(c, j, f, x, y)
    requires NothingLostSoFar(c, s, j, f) && Step(c, s, t, i)
    ensures NothingLostSoFar(c, t, j, f)
  {
    StepKeepsInv(c, s, t, i);
    ReturningAppliesTheDefaults(c, s, t, i);
    assert CallerInv(c, s, i);
    if c.initial == None && IsOther(c, j, i) && s.pcs[i] == Recovering && s.row.Some? {
      TwoCallersAgree(c, s, j, f, i);
    }
  }

  lemma {:induction false} RunLosesNothing(c: Config, run: seq<State>, k: nat, j: nat, f: string)
    requires IsRun(c, run) && k < |run| && OnlySetBy(c, f, j) && c.callers[j].valid
    requires c.initial.Some? || forall x, y :: !ThreeMeet(c, j, f, x, y)
    ensures |run[k].pcs| == |c.callers| && NothingLostSoFar(c, run[k], j, f)
  {
    RunKeepsInv(c, run, k);
    if k != 0 {
      RunLosesNothing(c, run, k - 1, j, f);
      var i: nat :| Step(c, run[k - 1], run[k], i);
      StepLosesNothing(c, run[k - 1], run[k], i, j, f);
    }
  }

  lemma Extend(c: Config, run: seq<State>, s: State, t: State, i: nat) returns (longer: seq<State>)
    requires IsRun(c, run) && run[|run| - 1] == s && Step(c, s, t, i)
    ensures IsRun(c, longer) && longer[|longer| - 1] == t
  {
    longer := run + [t];
  }

  lemma BothAreCreating(c: Config, start: seq<State>, first: State, i: nat, m: nat)
    returns (run: seq<State>, s: State, pcs: seq<PC>)
    requires i < |c.callers| && m < |c.callers| && i != m && c.callers[m].valid
    requires first == State(None, None, None, seq(|c.callers|, _ => Start))
    requires IsRun(c, start) && start[|start| - 1] == first
    ensures IsRun(c, run) && run[|run| - 1] == s == State(None, None, Some(m), pcs) && |pcs| == |c.callers|
    ensures pcs[i] == Creating && pcs[m] == Uncommitted
    ensures forall x :: 0 <= x < |pcs| && x != i && x != m ==> pcs[x] == Start
  {
    s := first;
    run := Extend(c, start, s, s.(pcs := s.pcs[i := Creating]), i);
    s := s.(pcs := s.pcs[i := Creating]);
    run := Extend(c, run, s, s.(pcs := s.pcs[m := Creating]), m);
    s := s.(pcs := s.pcs[m := Creating]);
    run := Extend(c, run, s, s.(pcs := s.pcs[m := Inserting]), m);
    s := s.(pcs := s.pcs[m := Inserting]);
    pcs := s.pcs[m := Uncommitted];
    run := Extend(c, run, s, s.(inserter := Some(m), pcs := pcs), m);
    s := s.(inserter := Some(m), pcs := pcs);
  }

  /** Caller `m` creates the row while `i` is about to, so that `i` is left with an unlocked copy of it. */
  lemma LosesTheRace(c: Config, i: nat, m: nat) returns (run: seq<State>, s: State)
    requires c.initial == None && i < |c.callers| && m < |c.callers| && i != m
    requires c.callers[i].valid && c.callers[m].valid
    ensures IsRun(c, run) && run[|run| - 1] == s && |s.pcs| == |c.callers|
    ensures s == State(Some(c.callers[m].defaults), None, None, s.pcs)
    ensures s.pcs[i] == Stale(c.callers[m].defaults)
    ensures forall x :: 0 <= x < |s.pcs| && x != i && x != m ==> s.pcs[x] == Start
  {
    var pcs := seq(|c.callers|, _ => Start);
    s := State(None, None, None, pcs);
    run := [s];
    run, s, pcs := BothAreCreating(c, run, s, i, m);
    var row := Some(c.callers[m].defaults);
    run := Extend(c, run, s, State(row, None, None, pcs[m := Returned(true)]), m);
    pcs := pcs[m := Returned(true)];
    s := State(row, None, None, pcs);
    run := Extend(c, run, s, s.(pcs := pcs[i := Recovering]), i);
    pcs := pcs[i := Recovering];
    s := s.(pcs := pcs);
    run := Extend(c, run, s, s.(pcs := pcs[i := Stale(row.value)]), i);
    s := s.(pcs := pcs[i := Stale(row.value)]);
  }

  /** Having re-fetched the row, caller `i` saves its copy over what `j` wrote in between. */
  lemma RecoveryCanLoseAnUpdate(c: Config, j: nat, f: string, i: nat, m: nat) returns (run: seq<State>)
    requires c.initial == None && ThreeMeet(c, j, f, i, m)
    ensures IsRun(c, run) && !Keeps(c, run[|run| - 1], j, f)
  {
    var s;
    run, s := LosesTheRace(c, i, m);
    var copy := c.callers[m].defaults;
    var t := State(Some(copy), Some(j), None, s.pcs[j := Holding(copy)]);
    run := Extend(c, run, s, t, j);
    s := t;
    t := State(Some(copy + c.callers[j].defaults), None, None, s.pcs[j := Returned(false)]);
    run := Extend(c, run, s, t, j);
    s := t;
    t := State(Some(copy + c.callers[i].defaults), None, None, s.pcs[i := Returned(false)]);
    run := Extend(c, run, s, t, i);
  }

  /**
   * No returned call ever loses a field of its own, in any run, exactly when there was a row at first or
   * no three valid callers meet of which one sets a field no other caller sets.
   */
  lemma UpdatesSurviveExactlyWhen(c: Config)
    ensures NothingIsLost(c) <==> c.initial.Some? || !ThreeCanMeet(c)
  {
    if c.initial.Some? || !ThreeCanMeet(c) {
      forall run: seq<State>, k, j: nat, f | IsRun(c, run) && 0 <= k < |run|
        ensures Keeps(c, run[k], j, f)
      {
        if j < |run[k].pcs| && run[k].pcs[j].Returned? && OnlySetBy(c, f, j) {
          RunKeepsInv(c, run, k);
          assert CallerInv(c, run[k], j);
          RunLosesNothing(c, run, k, j, f);
        }
      }
    } else {
      var j, f, i, m :| ThreeMeet(c, j, f, i, m);
      var run := RecoveryCanLoseAnUpdate(c, j, f, i, m);
      assert !Keeps(c, run[|run| - 1], j, f);
    }
  }
}
