/** `get_or_create_with_race_protection`, for any number of callers in any interleaving. */
module GetOrCreateRace {
  /** One call: the unique key of the row it would create, and whether that row is valid otherwise. */
  datatype Caller = Caller(key: string, valid: bool)

  ghost predicate NoDuplicates(table: seq<string>) {
    forall i, j :: 0 <= i < j < |table| ==> table[i] != table[j]
  }

  datatype Config = Config(lookup: string -> bool, callers: seq<Caller>, initial: seq<string>) {
    /** Every caller looks for the row it would create; the initial rows respect the unique constraint. */
    ghost predicate Valid() {
      && (forall i :: 0 <= i < |callers| ==> lookup(callers[i].key))
      && NoDuplicates(initial)
    }
  }

  datatype PC =
    | Start                               // before the first lookup
    | Validating                          // validation to come
    | Inserting                           // INSERT to come
    | Uncommitted                         // inserted, holding the index entry
    | Recovering                          // IntegrityError or ValidationError caught
    | Returned(row: nat, created: bool)
    | Raised
    | Lost                                // the connection failed before the commit

  /** Committed rows by their keys, a row's number being its position; and where each caller is. */
  datatype State = State(table: seq<string>, pcs: seq<PC>)

  ghost predicate Matches(c: Config, s: State, row: nat) {
    row < |s.table| && c.lookup(s.table[row])
  }

  ghost predicate SomeMatch(c: Config, s: State) {
    exists row: nat :: Matches(c, s, row)
  }

  /** Another caller's uncommitted row occupies the key in the unique index. */
  ghost predicate Reserved(c: Config, s: State, i: nat)
    requires i < |c.callers| == |s.pcs|
  {
    exists j :: 0 <= j < |s.pcs| && j != i && s.pcs[j] == Uncommitted && c.callers[j].key == c.callers[i].key
  }

  ghost predicate Init(c: Config, s: State) {
    s.table == c.initial && |s.pcs| == |c.callers| && forall i :: 0 <= i < |s.pcs| ==> s.pcs[i] == Start
  }

  /** What a lookup may lead to: some matching row, or the other branch. */
  ghost predicate LookedUp(c: Config, s: State, pc: PC, otherwise: PC) {
    if SomeMatch(c, s) then pc.Returned? && !pc.created && Matches(c, s, pc.row) else pc == otherwise
  }

  /** Caller `i` moves to `pc`, leaving the table at `table`. */
  ghost predicate Moves(c: Config, s: State, i: nat, pc: PC, table: seq<string>)
    requires i < |c.callers| == |s.pcs|
  {
    var caller := c.callers[i];
    match s.pcs[i]
    case Start => table == s.table && LookedUp(c, s, pc, Validating)
    case Validating =>
      table == s.table && pc == if !caller.valid || caller.key in s.table then Recovering else Inserting
    case Inserting =>
      // a key in an uncommitted row makes the INSERT wait
      && table == s.table && !Reserved(c, s, i)
      && pc == if caller.key in s.table then Recovering else Uncommitted
    case Uncommitted =>
      || (table == s.table + [caller.key] && pc == Returned(|s.table|, true))
      || (table == s.table && pc == Lost)
    case Recovering => table == s.table && LookedUp(c, s, pc, Raised)
    case _ => false
  }

  ghost predicate Step(c: Config, s: State, t: State, i: nat) {
    && i < |c.callers| == |s.pcs| == |t.pcs|
    && t.pcs == s.pcs[i := t.pcs[i]] && Moves(c, s, i, t.pcs[i], t.table)
  }

  ghost predicate Next(c: Config, s: State, t: State) {
    exists i :: Step(c, s, t, i)
  }

  ghost predicate IsRun(c: Config, run: seq<State>) {
    run != [] && Init(c, run[0]) && forall k :: 0 < k < |run| ==> Next(c, run[k - 1], run[k])
  }

  // ---- What every step keeps ----

  ghost predicate CallerInv(c: Config, s: State, i: nat)
    requires i < |c.callers| == |s.pcs|
  {
    var caller := c.callers[i];
    match s.pcs[i]
    case Inserting => caller.valid
    case Uncommitted => caller.valid && caller.key !in s.table
    case Recovering => caller.valid ==> caller.key in s.table
    case Returned(row, created) =>
      && Matches(c, s, row)
      && (created ==> caller.valid && |c.initial| <= row && s.table[row] == caller.key)
    case Raised => !caller.valid
    case _ => true
  }

  /** Who committed a row that was not there at first. */
  ghost predicate CreatedBy(s: State, row: nat, i: nat) {
    i < |s.pcs| && s.pcs[i] == Returned(row, true)
  }

  ghost predicate HasCreator(s: State, row: nat) {
    exists i: nat :: CreatedBy(s, row, i)
  }

  ghost predicate Inv(c: Config, s: State) {
    && |s.pcs| == |c.callers| && NoDuplicates(s.table) && c.initial <= s.table
    && (forall i :: 0 <= i < |s.pcs| ==> CallerInv(c, s, i))
    && (forall i, j :: 0 <= i < |s.pcs| && 0 <= j < |s.pcs| && i != j && s.pcs[i] == Uncommitted == s.pcs[j] ==>
          c.callers[i].key != c.callers[j].key)
    && (forall row: nat :: |c.initial| <= row < |s.table| ==> HasCreator(s, row))
  }

  lemma InitEstablishesInv(c: Config, s: State)
    requires c.Valid() && Init(c, s)
    ensures Inv(c, s)
  {}

  lemma StepKeepsCallers(c: Config, s: State, t: State, i: nat)
    requires c.Valid() && Inv(c, s) && Step(c, s, t, i)
    ensures s.table <= t.table && NoDuplicates(t.table)
    ensures forall j :: 0 <= j < |t.pcs| ==> CallerInv(c, t, j)
  {
    assert CallerInv(c, s, i);
    forall j | 0 <= j < |t.pcs|
      ensures CallerInv(c, t, j)
    {
      if j != i {
        assert t.pcs[j] == s.pcs[j] && CallerInv(c, s, j) && CallerInv(c, s, i);
        assert forall key :: key in s.table ==> key in t.table;
      } else {
        assert CallerInv(c, s, i);
        if s.pcs[i] == Recovering && c.callers[i].valid {
          var row :| 0 <= row < |s.table| && s.table[row] == c.callers[i].key;
          assert Matches(c, s, row);
        }
      }
    }
  }

  lemma StepKeepsInv(c: Config, s: State, t: State, i: nat)
    requires c.Valid() && Inv(c, s) && Step(c, s, t, i)
    ensures Inv(c, t)
  {
    StepKeepsCallers(c, s, t, i);
    forall row: nat | |c.initial| <= row < |t.table|
      ensures HasCreator(t, row)
    {
      if row < |s.table| {
        assert HasCreator(s, row);
        var j: nat :| CreatedBy(s, row, j);
        assert CreatedBy(t, row, j);
      } else {
        assert CreatedBy(t, row, i);
      }
    }
  }

  lemma {:induction false} RunKeepsInv(c: Config, run: seq<State>, k: nat)
    requires c.Valid() && IsRun(c, run) && k < |run|
    ensures Inv(c, run[k])
  {
    if k == 0 {
      InitEstablishesInv(c, run[0]);
    } else {
      RunKeepsInv(c, run, k - 1);
      var i :| Step(c, run[k - 1], run[k], i);
      StepKeepsInv(c, run[k - 1], run[k], i);
    }
  }

  // ---- What the callers get ----

  /** No valid call ever raises: a lost race always ends at the winner's row. */
  lemma ValidCallersNeverRaise(c: Config, run: seq<State>, k: nat, i: nat)
    requires c.Valid() && IsRun(c, run) && k < |run| && i < |c.callers| && c.callers[i].valid
    ensures i < |run[k].pcs| && run[k].pcs[i] != Raised
  {
    RunKeepsInv(c, run, k);
    assert CallerInv(c, run[k], i);
  }

  /** A row is created in one step, by one caller, at the end of the table. */
  lemma {:induction false} CreatorsDiffer(c: Config, run: seq<State>, k: nat)
    requires c.Valid() && IsRun(c, run) && k < |run|
    ensures forall i: nat, j: nat, row: nat :: CreatedBy(run[k], row, i) && CreatedBy(run[k], row, j) ==> i == j
  {
    if k != 0 {
      CreatorsDiffer(c, run, k - 1);
      RunKeepsInv(c, run, k - 1);
      var s, t := run[k - 1], run[k];
      var m :| Step(c, s, t, m);
      forall i: nat, row: nat | CreatedBy(t, row, i) && i != m
        ensures CreatedBy(s, row, i) && row < |s.table|
      {
        assert CallerInv(c, s, i);
      }
    }
  }

  /** Two calls never both report having created the same row, and every new row is reported by one. */
  lemma EachRowHasOneCreator(c: Config, run: seq<State>, k: nat)
    requires c.Valid() && IsRun(c, run) && k < |run|
    ensures |c.initial| <= |run[k].table|
    ensures forall row: nat :: |c.initial| <= row < |run[k].table| ==> HasCreator(run[k], row)
    ensures forall i: nat, row: nat :: CreatedBy(run[k], row, i) ==> |c.initial| <= row < |run[k].table|
    ensures forall i: nat, j: nat, row: nat :: CreatedBy(run[k], row, i) && CreatedBy(run[k], row, j) ==> i == j
  {
    RunKeepsInv(c, run, k);
    forall i: nat, row: nat | CreatedBy(run[k], row, i)
      ensures |c.initial| <= row < |run[k].table|
    {
      assert CallerInv(c, run[k], i);
    }
    CreatorsDiffer(c, run, k);
  }

  // ---- When there is only ever one matching row ----

  ghost predicate OneMatch(c: Config, s: State) {
    forall a: nat, b: nat :: Matches(c, s, a) && Matches(c, s, b) ==> a == b
  }

  /** Callers that could create a row would all create it under the same unique key. */
  ghost predicate OneKey(c: Config) {
    forall i, j :: 0 <= i < |c.callers| && 0 <= j < |c.callers| && c.callers[i].valid && c.callers[j].valid ==>
      c.callers[i].key == c.callers[j].key
  }

  ghost predicate NoneAtFirst(c: Config) {
    forall i :: 0 <= i < |c.initial| ==> !c.lookup(c.initial[i])
  }

  lemma NewRowsShareAKey(c: Config, s: State)
    requires Inv(c, s) && NoneAtFirst(c) && OneKey(c)
    ensures OneMatch(c, s)
  {
    forall a: nat, b: nat | Matches(c, s, a) && Matches(c, s, b)
      ensures a == b
    {
      assert |c.initial| <= a && |c.initial| <= b by {
        assert forall r :: 0 <= r < |c.initial| ==> s.table[r] == c.initial[r];
      }
      assert HasCreator(s, a) && HasCreator(s, b);
      var i: nat :| CreatedBy(s, a, i);
      var j: nat :| CreatedBy(s, b, j);
      assert CallerInv(c, s, i) && CallerInv(c, s, j);
    }
  }

  /** Calls that have returned got the same row, and not both of them created it. */
  predicate Agree(a: PC, b: PC, same: bool) {
    a.Returned? && b.Returned? ==> a.row == b.row && (same || !a.created || !b.created)
  }

  /** With one key, all calls return the same row, and just one of them created it. */
  lemma AllCallsAgree(c: Config, run: seq<State>, k: nat)
    requires c.Valid() && IsRun(c, run) && k < |run| && NoneAtFirst(c) && OneKey(c)
    ensures |run[k].pcs| == |c.callers| && OneMatch(c, run[k])
    ensures forall i, j :: 0 <= i < |c.callers| && 0 <= j < |c.callers| ==> Agree(run[k].pcs[i], run[k].pcs[j], i == j)
    ensures forall row: nat :: Matches(c, run[k], row) ==> HasCreator(run[k], row)
  {
    var s := run[k];
    RunKeepsInv(c, run, k);
    NewRowsShareAKey(c, s);
    EachRowHasOneCreator(c, run, k);
    forall i, j | 0 <= i < |c.callers| && 0 <= j < |c.callers| && s.pcs[i].Returned? && s.pcs[j].Returned?
      ensures Agree(s.pcs[i], s.pcs[j], i == j)
    {
      assert CallerInv(c, s, i) && CallerInv(c, s, j);
      assert Matches(c, s, s.pcs[i].row) && Matches(c, s, s.pcs[j].row);
      if s.pcs[i].created && s.pcs[j].created {
        assert CreatedBy(s, s.pcs[i].row, i) && CreatedBy(s, s.pcs[j].row, j);
      }
    }
    assert forall r :: 0 <= r < |c.initial| ==> s.table[r] == c.initial[r];
  }

  // ---- And when there is not ----

  lemma Extend(c: Config, run: seq<State>, s: State, i: nat, pc: PC, table: seq<string>)
    returns (longer: seq<State>, t: State)
    requires IsRun(c, run) && run[|run| - 1] == s
    requires i < |c.callers| == |s.pcs| && Moves(c, s, i, pc, table)
    ensures t == State(table, s.pcs[i := pc])
    ensures IsRun(c, longer) && longer[|longer| - 1] == t
  {
    t := State(table, s.pcs[i := pc]);
    assert Step(c, s, t, i);
    longer := run + [t];
  }

  lemma BothInsert(c: Config, run: seq<State>, s: State, i: nat, j: nat) returns (longer: seq<State>, t: State)
    requires c.Valid() && NoneAtFirst(c) && i < |c.callers| == |s.pcs| && j < |c.callers|
    requires c.callers[i].valid && c.callers[j].valid && c.callers[i].key != c.callers[j].key
    requires IsRun(c, run) && run[|run| - 1] == s && s.table == c.initial
    requires s.pcs == seq(|c.callers|, _ => Start)[i := Validating][j := Validating]
    ensures t == State(c.initial, s.pcs[i := Uncommitted][j := Uncommitted])
    ensures IsRun(c, longer) && longer[|longer| - 1] == t
  {
    assert c.callers[i].key !in c.initial && c.callers[j].key !in c.initial;
    longer, t := Extend(c, run, s, i, Inserting, c.initial);
    longer, t := Extend(c, longer, t, j, Inserting, c.initial);
    longer, t := Extend(c, longer, t, i, Uncommitted, c.initial);
    longer, t := Extend(c, longer, t, j, Uncommitted, c.initial);
  }

  /** Two valid callers with different keys can both create a matching row. */
  lemma TwoKeysTwoRows(c: Config, i: nat, j: nat) returns (run: seq<State>)
    requires c.Valid() && NoneAtFirst(c) && i < |c.callers| && j < |c.callers|
    requires c.callers[i].valid && c.callers[j].valid && c.callers[i].key != c.callers[j].key
    ensures IsRun(c, run) && !OneMatch(c, run[|run| - 1])
  {
    var a, b := c.callers[i].key, c.callers[j].key;
    var s := State(c.initial, seq(|c.callers|, _ => Start));
    run := [s];
    run, s := Extend(c, run, s, i, Validating, c.initial);
    run, s := Extend(c, run, s, j, Validating, c.initial);
    run, s := BothInsert(c, run, s, i, j);
    var n := |c.initial|;
    run, s := Extend(c, run, s, i, Returned(n, true), c.initial + [a]);
    run, s := Extend(c, run, s, j, Returned(n + 1, true), c.initial + [a] + [b]);
    assert Matches(c, s, n) && Matches(c, s, n + 1);
  }

  /** In every run at most one row matches, exactly when the lookup pins down one unique key. */
  lemma OneMatchExactlyWhen(c: Config)
    requires c.Valid() && NoneAtFirst(c)
    ensures (forall run, k :: IsRun(c, run) && 0 <= k < |run| ==> OneMatch(c, run[k])) <==> OneKey(c)
  {
    if OneKey(c) {
      forall run, k | IsRun(c, run) && 0 <= k < |run|
        ensures OneMatch(c, run[k])
      {
        AllCallsAgree(c, run, k);
      }
    } else {
      var i, j :| 0 <= i < |c.callers| && 0 <= j < |c.callers| && c.callers[i].valid && c.callers[j].valid
        && c.callers[i].key != c.callers[j].key;
      var run := TwoKeysTwoRows(c, i, j);
      assert !OneMatch(c, run[|run| - 1]);
    }
  }

  // ---- When a matching row was there already ----

  /** With a matching row at the start nobody creates anything and the table never changes. */
  lemma {:induction false} ExistingRowIsOnlyFound(c: Config, run: seq<State>, k: nat)
    requires c.Valid() && IsRun(c, run) && k < |run| && !NoneAtFirst(c)
    ensures run[k].table == c.initial && |run[k].pcs| == |c.callers|
    ensures forall i :: 0 <= i < |c.callers| ==>
              run[k].pcs[i] == Start || (run[k].pcs[i].Returned? && !run[k].pcs[i].created)
  {
    if k != 0 {
      ExistingRowIsOnlyFound(c, run, k - 1);
      var s, t := run[k - 1], run[k];
      var m :| Step(c, s, t, m);
      var row :| 0 <= row < |c.initial| && c.lookup(c.initial[row]);
      assert Matches(c, s, row);
    }
  }

  /** Only a commit changes the table; a call that raises leaves it as it was. */
  lemma OnlyCommitsChangeTheTable(c: Config, s: State, t: State, i: nat)
    requires Step(c, s, t, i)
    ensures t.table == s.table
            || (t.pcs[i] == Returned(|s.table|, true) && t.table == s.table + [c.callers[i].key])
    ensures t.pcs[i] == Raised ==> t.table == s.table && !SomeMatch(c, t)
  {
    if SomeMatch(c, t) && t.table == s.table {
      var row: nat :| Matches(c, t, row);
      assert Matches(c, s, row);
    }
  }

  // ---- Every call gets its answer ----

  /** A committed row the lookup would find. */
  ghost predicate RowIsThere(c: Config, table: seq<string>) {
    exists key :: key in table && c.lookup(key)
  }

  ghost predicate FoundIn(c: Config, table: seq<string>, pc: PC) {
    pc.Returned? && !pc.created && pc.row < |table| && c.lookup(table[pc.row])
  }

  lemma RowIsThereExactlyWhen(c: Config, s: State)
    ensures RowIsThere(c, s.table) <==> SomeMatch(c, s)
  {
    if key :| key in s.table && c.lookup(key) {
      var row :| 0 <= row < |s.table| && s.table[row] == key;
      assert Matches(c, s, row);
    }
  }

  ghost predicate CanMove(c: Config, s: State, i: nat) {
    exists t :: Step(c, s, t, i)
  }

  lemma MovesTo(c: Config, s: State, i: nat, pc: PC, table: seq<string>)
    requires i < |c.callers| == |s.pcs| && Moves(c, s, i, pc, table)
    ensures CanMove(c, s, i)
  {
    assert Step(c, s, State(table, s.pcs[i := pc]), i);
  }

  /** A caller looking for the row, at first or after losing the race, gets it if it is there. */
  lemma LookupAnswers(c: Config, s: State, t: State, i: nat)
    requires Step(c, s, t, i) && (s.pcs[i] == Start || s.pcs[i] == Recovering)
    ensures t.table == s.table
    ensures if RowIsThere(c, s.table) then FoundIn(c, t.table, t.pcs[i])
            else t.pcs[i] == if s.pcs[i] == Start then Validating else Raised
  {
    RowIsThereExactlyWhen(c, s);
  }

  /** Only a connection that fails before the commit leaves a call without an answer. */
  lemma LostOnlyBeforeCommit(c: Config, s: State, t: State, i: nat)
    requires Step(c, s, t, i) && t.pcs[i] == Lost
    ensures s.pcs[i] == Uncommitted && t.table == s.table
  {
    RowIsThereExactlyWhen(c, s);
  }

  predicate IsOver(pc: PC) {
    pc.Returned? || pc == Raised || pc == Lost
  }

  lemma LookupMoves(c: Config, s: State, i: nat, otherwise: PC)
    requires i < |c.callers| == |s.pcs|
    requires forall pc :: LookedUp(c, s, pc, otherwise) ==> Moves(c, s, i, pc, s.table)
    ensures CanMove(c, s, i)
  {
    if row: nat :| Matches(c, s, row) {
      MovesTo(c, s, i, Returned(row, false), s.table);
    } else {
      assert LookedUp(c, s, otherwise, otherwise);
      MovesTo(c, s, i, otherwise, s.table);
    }
  }

  /** A caller that is not done can move, or waits for another one's commit. */
  lemma MovesOrWaits(c: Config, s: State, i: nat)
    requires i < |c.callers| == |s.pcs| && !IsOver(s.pcs[i])
    ensures CanMove(c, s, i) || (s.pcs[i] == Inserting && Reserved(c, s, i))
  {
    var caller := c.callers[i];
    match s.pcs[i]
    case Validating =>
      MovesTo(c, s, i, if !caller.valid || caller.key in s.table then Recovering else Inserting, s.table);
    case Inserting =>
      if !Reserved(c, s, i) {
        MovesTo(c, s, i, if caller.key in s.table then Recovering else Uncommitted, s.table);
      }
    case Uncommitted => MovesTo(c, s, i, Lost, s.table);
    case Start => LookupMoves(c, s, i, Validating);
    case Recovering => LookupMoves(c, s, i, Raised);
    case _ =>
  }

  ghost predicate NobodyCanMove(c: Config, s: State) {
    forall i: nat :: !CanMove(c, s, i)
  }

  /** There is no deadlock: when nobody can move, everybody is done. */
  lemma StuckMeansOver(c: Config, s: State, i: nat)
    requires |c.callers| == |s.pcs| && NobodyCanMove(c, s) && i < |s.pcs|
    ensures IsOver(s.pcs[i])
  {
    if !IsOver(s.pcs[i]) {
      MovesOrWaits(c, s, i);
      var j :| 0 <= j < |s.pcs| && j != i && s.pcs[j] == Uncommitted;
      MovesOrWaits(c, s, j);
      assert false;
    }
  }

  /** How many steps a caller has left at most. */
  function StepsLeft(pc: PC): nat {
    match pc
    case Start => 4
    case Validating => 3
    case Inserting => 2
    case Uncommitted => 1
    case Recovering => 1
    case _ => 0
  }

  function AllStepsLeft(pcs: seq<PC>): nat {
    if pcs == [] then 0 else AllStepsLeft(pcs[..|pcs| - 1]) + StepsLeft(pcs[|pcs| - 1])
  }

  lemma {:induction false} StepsLeftAfter(pcs: seq<PC>, i: nat, pc: PC)
    requires i < |pcs|
    ensures AllStepsLeft(pcs[i := pc]) == AllStepsLeft(pcs) - StepsLeft(pcs[i]) + StepsLeft(pc)
  {
    var n := |pcs| - 1;
    if i == n {
      assert pcs[i := pc][..n] == pcs[..n];
    } else {
      assert pcs[i := pc][..n] == pcs[..n][i := pc];
      StepsLeftAfter(pcs[..n], i, pc);
    }
  }

  lemma {:induction false} AllAtStart(pcs: seq<PC>)
    requires forall i :: 0 <= i < |pcs| ==> pcs[i] == Start
    ensures AllStepsLeft(pcs) == 4 * |pcs|
  {
    if pcs != [] {
      AllAtStart(pcs[..|pcs| - 1]);
    }
  }

  lemma StepTakesOne(c: Config, s: State, t: State, i: nat)
    requires Step(c, s, t, i)
    ensures AllStepsLeft(t.pcs) < AllStepsLeft(s.pcs)
  {
    StepsLeftAfter(s.pcs, i, t.pcs[i]);
  }

  /** Every run ends: there are four steps for each caller at most. */
  lemma {:induction false} RunsEnd(c: Config, run: seq<State>, k: nat)
    requires IsRun(c, run) && k < |run|
    ensures k + AllStepsLeft(run[k].pcs) <= 4 * |c.callers|
  {
    if k == 0 {
      AllAtStart(run[0].pcs);
    } else {
      RunsEnd(c, run, k - 1);
      var i :| Step(c, run[k - 1], run[k], i);
      StepTakesOne(c, run[k - 1], run[k], i);
    }
  }

  /** All valid calls have returned `row`, which just one of them created; the others found it or have raised. */
  ghost predicate AllAnswered(c: Config, s: State, row: nat) {
    && |s.pcs| == |c.callers| && (forall r: nat :: Matches(c, s, r) <==> r == row)
    && (forall i :: 0 <= i < |s.pcs| ==>
          s.pcs[i] == Returned(row, false) || (c.callers[i].valid && s.pcs[i] == Returned(row, true))
          || (!c.callers[i].valid && s.pcs[i] == Raised))
    && (exists i: nat :: CreatedBy(s, row, i))
    && forall i: nat, j: nat :: CreatedBy(s, row, i) && CreatedBy(s, row, j) ==> i == j
  }

  lemma NewRowHasCreator(c: Config, s: State, row: nat)
    requires Inv(c, s) && NoneAtFirst(c) && Matches(c, s, row)
    ensures exists i: nat :: CreatedBy(s, row, i)
  {
    assert |c.initial| <= row by {
      assert forall r :: 0 <= r < |c.initial| ==> s.table[r] == c.initial[r];
    }
    assert HasCreator(s, row);
  }

  /**
   * At the end of every run no connection of which has failed, with one key, no row at first and some valid
   * caller, every valid call has returned the one row there is, and exactly one of them has created it.
   */
  lemma EveryCallIsAnswered(c: Config, run: seq<State>, v: nat) returns (row: nat)
    requires c.Valid() && IsRun(c, run) && NoneAtFirst(c) && OneKey(c) && v < |c.callers| && c.callers[v].valid
    requires var s := run[|run| - 1]; NobodyCanMove(c, s) && forall i :: 0 <= i < |s.pcs| ==> s.pcs[i] != Lost
    ensures AllAnswered(c, run[|run| - 1], row)
  {
    var k := |run| - 1;
    var s := run[k];
    RunKeepsInv(c, run, k);
    AllCallsAgree(c, run, k);
    StuckMeansOver(c, s, v);
    assert CallerInv(c, s, v);
    row := s.pcs[v].row;
    assert Matches(c, s, row);
    NewRowHasCreator(c, s, row);
    forall i | 0 <= i < |s.pcs|
      ensures s.pcs[i] == Returned(row, false) || (c.callers[i].valid && s.pcs[i] == Returned(row, true))
              || (!c.callers[i].valid && s.pcs[i] == Raised)
    {
      StuckMeansOver(c, s, i);
      assert CallerInv(c, s, i);
      if s.pcs[i].Returned? {
        assert Matches(c, s, s.pcs[i].row);
      }
    }
    EachRowHasOneCreator(c, run, k);
  }
}
