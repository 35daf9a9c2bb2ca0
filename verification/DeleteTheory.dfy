/**
 What deletes leave behind when keys cascade: the rows that stay are the largest part of the database
 in which no row is aimed at and no row has lost, through a cascading key, the row it refers to.
 */
module DeleteTheory {
  import opened Prelude
  import opened Relational

  // ---------- parts of a database ----------

  /** Each row of `small` is in `large` with the same cells. */
  ghost predicate Within(small: Rows, large: Rows) {
    forall id | id in small :: id in large && large[id] == small[id]
  }

  ghost predicate Sub(small: Database, large: Database) {
    small.Keys == large.Keys && forall table | table in small :: Within(small[table], large[table])
  }

  ghost predicate NoOrphans(server: Server, db: Database) {
    forall table, id | table in db && id in db[table] :: !Orphaned(server, db, table, db[table][id])
  }

  predicate Cascading(server: Server, fk: ForeignKey) {
    fk in server.foreignKeys && fk in server.cascades
  }

  lemma SubBothWays(a: Database, b: Database)
    requires Sub(a, b) && Sub(b, a)
    ensures a == b
  {
    forall table | table in a ensures a[table] == b[table] {
      assert Within(a[table], b[table]) && Within(b[table], a[table]);
    }
  }

  lemma SubThrough(a: Database, b: Database, c: Database)
    requires Sub(a, b) && Sub(b, c)
    ensures Sub(a, c)
  {
    forall table | table in a ensures Within(a[table], c[table]) {
      assert Within(a[table], b[table]) && Within(b[table], c[table]);
    }
  }

  lemma SubRow(small: Database, large: Database, table: Table, id: Key)
    requires Sub(small, large) && id in RowsIn(small, table)
    ensures id in RowsIn(large, table) && RowsIn(large, table)[id] == RowsIn(small, table)[id]
  {
    assert Within(small[table], large[table]);
  }

  /** With more rows around, no row is orphaned that was not before. */
  lemma OrphansLessOften(server: Server, small: Database, large: Database, table: Table, cells: Cells)
    requires Sub(small, large) && !Orphaned(server, small, table, cells)
    ensures !Orphaned(server, large, table, cells)
  {
    forall fk | fk in server.foreignKeys && fk in server.cascades && fk.child == table && Cell(cells, fk.column).Text?
      ensures Cell(cells, fk.column).text in RowsIn(large, fk.parent)
    {
      SubRow(small, large, fk.parent, Cell(cells, fk.column).text);
    }
  }

  lemma ClosedHasNoOrphans(server: Server, db: Database)
    requires Closed(server, db)
    ensures NoOrphans(server, db)
  {
    forall table, id | table in db && id in db[table] ensures !Orphaned(server, db, table, db[table][id]) {
      forall fk | fk in server.foreignKeys && fk.child == table && Cell(db[table][id], fk.column).Text?
        ensures Cell(db[table][id], fk.column).text in RowsIn(db, fk.parent)
      {
        assert Holds(fk, db) && id in RowsIn(db, fk.child);
      }
    }
  }

  // ---------- sweeping ----------

  lemma {:induction false} SweepLeavesNoOrphans(server: Server, db: Database)
    ensures Sub(Sweep(server, db), db) && NoOrphans(server, Sweep(server, db))
    decreases Names(db)
  {
    FewerNames(server, db);
    var next := WithoutOrphans(server, db);
    if next == db {
      forall table, id | table in db && id in db[table] ensures !Orphaned(server, db, table, db[table][id]) {
        assert id in next[table];
      }
    } else {
      SweepLeavesNoOrphans(server, next);
      SubThrough(Sweep(server, next), next, db);
    }
  }

  /** Every part of the database without orphans survives. */
  lemma {:induction false} SweepIsGreatest(server: Server, small: Database, db: Database)
    requires Sub(small, db) && NoOrphans(server, small)
    ensures Sub(small, Sweep(server, db))
    decreases Names(db)
  {
    FewerNames(server, db);
    var next := WithoutOrphans(server, db);
    if next != db {
      forall table | table in small ensures Within(small[table], next[table]) {
        assert Within(small[table], db[table]);
        forall id | id in small[table] ensures id in next[table] {
          OrphansLessOften(server, small, db, table, small[table][id]);
        }
      }
      SweepIsGreatest(server, small, next);
    }
  }

  // ---------- what a set of deletes leaves ----------

  ghost predicate Aimed(steps: set<DeleteStep>, table: Table, id: Key, cells: Cells) {
    exists step | step in steps :: step.table == table && Matches(step.where, id, cells)
  }

  ghost predicate NothingAimed(steps: set<DeleteStep>, db: Database) {
    forall table, id | table in db && id in db[table] :: !Aimed(steps, table, id, db[table][id])
  }

  ghost function Unaimed(db: Database, steps: set<DeleteStep>): Database {
    map table | table in db ::
      map id | id in db[table] && !Aimed(steps, table, id, db[table][id]) :: db[table][id]
  }

  /** The rows that stay when all the deletes are carried out. */
  ghost function Kept(server: Server, db: Database, steps: set<DeleteStep>): Database {
    Sweep(server, Unaimed(db, steps))
  }

  lemma KeptIsInside(server: Server, db: Database, steps: set<DeleteStep>)
    ensures Sub(Kept(server, db, steps), db)
    ensures NoOrphans(server, Kept(server, db, steps)) && NothingAimed(steps, Kept(server, db, steps))
  {
    var kept, unaimed := Kept(server, db, steps), Unaimed(db, steps);
    SweepLeavesNoOrphans(server, unaimed);
    SubThrough(kept, unaimed, db);
    forall table, id | table in kept && id in kept[table] ensures !Aimed(steps, table, id, kept[table][id]) {
      SubRow(kept, unaimed, table, id);
    }
  }

  lemma KeptIsGreatest(server: Server, db: Database, steps: set<DeleteStep>, small: Database)
    requires Sub(small, db) && NoOrphans(server, small) && NothingAimed(steps, small)
    ensures Sub(small, Kept(server, db, steps))
  {
    var unaimed := Unaimed(db, steps);
    forall table | table in small ensures Within(small[table], unaimed[table]) {
      assert Within(small[table], db[table]);
    }
    SweepIsGreatest(server, small, unaimed);
  }

  lemma KeptOfNothing(server: Server, db: Database)
    requires NoOrphans(server, db)
    ensures Kept(server, db, {}) == db
  {
    KeptIsInside(server, db, {});
    KeptIsGreatest(server, db, {}, db);
    SubBothWays(db, Kept(server, db, {}));
  }

  lemma AimedByEither(a: set<DeleteStep>, b: set<DeleteStep>, table: Table, id: Key, cells: Cells)
    ensures Aimed(a + b, table, id, cells) <==> Aimed(a, table, id, cells) || Aimed(b, table, id, cells)
  {
  }

  lemma FewerStepsKeepMore(server: Server, db: Database, a: set<DeleteStep>, b: set<DeleteStep>)
    requires a <= b
    ensures Sub(Kept(server, db, b), Kept(server, db, a))
  {
    KeptIsInside(server, db, b);
    KeptIsGreatest(server, db, a, Kept(server, db, b));
  }

  /** Deleting in two rounds, each with its cascades, leaves what deleting everything at once leaves. */
  lemma KeptInTurn(server: Server, db: Database, a: set<DeleteStep>, b: set<DeleteStep>)
    ensures Kept(server, Kept(server, db, a), b) == Kept(server, db, a + b)
  {
    var first, both := Kept(server, db, a), Kept(server, db, a + b);
    var second := Kept(server, first, b);
    KeptIsInside(server, db, a);
    KeptIsInside(server, first, b);
    KeptIsInside(server, db, a + b);
    SubThrough(second, first, db);
    forall table, id | table in second && id in second[table] ensures !Aimed(a + b, table, id, second[table][id]) {
      SubRow(second, first, table, id);
      AimedByEither(a, b, table, id, second[table][id]);
    }
    KeptIsGreatest(server, db, a + b, second);
    FewerStepsKeepMore(server, db, a, a + b);
    KeptIsGreatest(server, first, b, both);
    SubBothWays(second, both);
  }

  ghost function Meet(a: Database, b: Database): Database {
    map table | table in a :: map id | id in a[table] && id in RowsIn(b, table) :: a[table][id]
  }

  lemma MeetHasNoOrphans(server: Server, db: Database, a: Database, b: Database)
    requires Sub(a, db) && Sub(b, db) && NoOrphans(server, a) && NoOrphans(server, b)
    ensures Sub(Meet(a, b), a) && Sub(Meet(a, b), b) && NoOrphans(server, Meet(a, b))
  {
    var both := Meet(a, b);
    forall table | table in both ensures Within(both[table], b[table]) {
      assert Within(a[table], db[table]) && Within(b[table], db[table]);
    }
    forall table, id | table in both && id in both[table] ensures !Orphaned(server, both, table, both[table][id]) {
      MeetRowHasParents(server, a, b, table, id);
    }
  }

  lemma MeetRowHasParents(server: Server, a: Database, b: Database, table: Table, id: Key)
    requires NoOrphans(server, a) && NoOrphans(server, b) && Sub(Meet(a, b), b)
    requires id in RowsIn(Meet(a, b), table)
    ensures !Orphaned(server, Meet(a, b), table, Meet(a, b)[table][id])
  {
    var cells := Meet(a, b)[table][id];
    SubRow(Meet(a, b), b, table, id);
    assert !Orphaned(server, a, table, cells) && !Orphaned(server, b, table, cells);
  }

  /** What stays under one set of deletes and under another stays under both. */
  lemma KeptByBoth(server: Server, db: Database, a: set<DeleteStep>, b: set<DeleteStep>, table: Table, id: Key)
    requires id in RowsIn(Kept(server, db, a), table) && id in RowsIn(Kept(server, db, b), table)
    ensures id in RowsIn(Kept(server, db, a + b), table)
  {
    var ka, kb := Kept(server, db, a), Kept(server, db, b);
    var both := Meet(ka, kb);
    KeptIsInside(server, db, a);
    KeptIsInside(server, db, b);
    MeetHasNoOrphans(server, db, ka, kb);
    SubThrough(both, ka, db);
    forall t, i | t in both && i in both[t] ensures !Aimed(a + b, t, i, both[t][i]) {
      SubRow(both, kb, t, i);
      AimedByEither(a, b, t, i, both[t][i]);
    }
    KeptIsGreatest(server, db, a + b, both);
    SubRow(both, Kept(server, db, a + b), table, id);
  }

  // ---------- one statement, and a phase of them ----------

  lemma TryDeleteKeeps(server: Server, db: Database, step: DeleteStep)
    requires step.table in db
    ensures Sweep(server, db[step.table := Unselected(db[step.table], step.where)]) == Kept(server, db, {step})
  {
    var direct, unaimed := db[step.table := Unselected(db[step.table], step.where)], Unaimed(db, {step});
    forall table | table in db ensures direct[table] == unaimed[table] {
      assert forall id | id in db[table] :: Aimed({step}, table, id, db[table][id]) <==>
               step.table == table && Matches(step.where, id, db[table][id]);
    }
    assert direct == unaimed;
  }

  /** The i-th delete is reached and the server does not refuse it. */
  ghost predicate Accepted(server: Server, db: Database, steps: seq<DeleteStep>, i: nat)
    requires i < |steps|
  {
    var mid := RunDeletes(server, db, steps[..i]);
    mid.Some? && TryDelete(server, mid.value, steps[i].table, steps[i].where).Some?
  }

  ghost function AcceptedSteps(server: Server, db: Database, steps: seq<DeleteStep>): set<DeleteStep> {
    set step | step in steps && Accepts(server, db, steps, step)
  }

  lemma AcceptedInPrefix(server: Server, db: Database, deletes: seq<DeleteStep>, i: nat)
    requires i <= |deletes|
    ensures forall j | 0 <= j < i :: deletes[..i][j] == deletes[j]
    ensures forall j | 0 <= j < i :: Accepted(server, db, deletes[..i], j) == Accepted(server, db, deletes, j)
  {
    forall j | 0 <= j < i ensures Accepted(server, db, deletes[..i], j) == Accepted(server, db, deletes, j) {
      assert deletes[..i][..j] == deletes[..j];
    }
  }

  ghost predicate Accepts(server: Server, db: Database, steps: seq<DeleteStep>, step: DeleteStep) {
    exists i :: 0 <= i < |steps| && steps[i] == step && Accepted(server, db, steps, i)
  }

  lemma AcceptsOneMore(server: Server, db: Database, steps: seq<DeleteStep>, n: nat, step: DeleteStep)
    requires |steps| == n + 1
    ensures Accepts(server, db, steps, step) <==>
            Accepts(server, db, steps[..n], step) || (Accepted(server, db, steps, n) && step == steps[n])
  {
    AcceptedInPrefix(server, db, steps, n);
    if Accepts(server, db, steps[..n], step) {
      var j :| 0 <= j < n && steps[..n][j] == step && Accepted(server, db, steps[..n], j);
      assert steps[j] == step && Accepted(server, db, steps, j);
    }
    if Accepts(server, db, steps, step) {
      var j :| 0 <= j < |steps| && steps[j] == step && Accepted(server, db, steps, j);
      if j < n {
        assert steps[..n][j] == step && Accepted(server, db, steps[..n], j);
      }
    }
  }

  lemma AcceptedStepsGrow(server: Server, db: Database, steps: seq<DeleteStep>, n: nat)
    requires |steps| == n + 1
    ensures AcceptedSteps(server, db, steps) ==
            AcceptedSteps(server, db, steps[..n]) + if Accepted(server, db, steps, n) then {steps[n]} else {}
  {
    forall step
      ensures step in AcceptedSteps(server, db, steps) <==>
              step in AcceptedSteps(server, db, steps[..n]) || (Accepted(server, db, steps, n) && step == steps[n])
    {
      AcceptsOneMore(server, db, steps, n, step);
    }
  }

  /** The delete phase leaves exactly what the accepted deletes leave. */
  lemma {:induction false} DeletePhase(server: Server, db: Database, steps: seq<DeleteStep>)
    requires NoOrphans(server, db) && RunDeletes(server, db, steps).Some?
    ensures RunDeletes(server, db, steps).value == Kept(server, db, AcceptedSteps(server, db, steps))
    ensures RunDeletes(server, db, steps).value.Keys == db.Keys
  {
    if steps == [] {
      assert AcceptedSteps(server, db, steps) == {};
      KeptOfNothing(server, db);
    } else {
      var n := |steps| - 1;
      DeletePhase(server, db, steps[..n]);
      AcceptedStepsGrow(server, db, steps, n);
      var before := AcceptedSteps(server, db, steps[..n]);
      var mid := RunDeletes(server, db, steps[..n]).value;
      if Accepted(server, db, steps, n) {
        TryDeleteKeeps(server, mid, steps[n]);
        KeptInTurn(server, db, before, {steps[n]});
      } else {
        assert before + {} == before;
      }
    }
    KeptIsInside(server, db, AcceptedSteps(server, db, steps));
  }

  lemma {:induction false} DeletesReachPrefix(server: Server, db: Database, steps: seq<DeleteStep>, i: nat)
    requires i <= |steps| && RunDeletes(server, db, steps).Some?
    ensures RunDeletes(server, db, steps[..i]).Some?
  {
    if i == |steps| {
      assert steps[..i] == steps;
    } else {
      var n := |steps| - 1;
      DeletesReachPrefix(server, db, steps[..n], i);
      assert steps[..n][..i] == steps[..i];
    }
  }

  lemma {:induction false} DeletesKeepClosed(server: Server, db: Database, steps: seq<DeleteStep>)
    requires Closed(server, db) && RunDeletes(server, db, steps).Some?
    ensures Closed(server, RunDeletes(server, db, steps).value)
  {
    if steps != [] {
      DeletesKeepClosed(server, db, steps[..|steps| - 1]);
    }
  }

  lemma {:induction false} KeysKept(server: Server, db: Database, steps: seq<DeleteStep>)
    requires RunDeletes(server, db, steps).Some?
    ensures RunDeletes(server, db, steps).value.Keys == db.Keys
  {
    if steps != [] {
      KeysKept(server, db, steps[..|steps| - 1]);
      var mid, last := RunDeletes(server, db, steps[..|steps| - 1]).value, steps[|steps| - 1];
      if last.table in mid {
        TryDeleteKeeps(server, mid, last);
        KeptIsInside(server, mid, {last});
      }
    }
  }

  lemma UntoleratedIsAccepted(server: Server, db: Database, plan: seq<DeleteStep>, i: nat)
    requires RunDeletes(server, db, plan).Some? && i < |plan| && !plan[i].tolerant
    ensures Accepted(server, db, plan, i)
  {
    DeletesReachPrefix(server, db, plan, i);
    DeletesReachPrefix(server, db, plan, i + 1);
    assert plan[..i + 1][..i] == plan[..i];
  }

  // ---------- how far cascades reach ----------

  ghost predicate CascadeClosed(server: Server, tables: set<Table>) {
    forall fk | Cascading(server, fk) && fk.parent in tables :: fk.child in tables
  }

  /** No chain of cascading keys leads from one table to the other. */
  ghost predicate Spares(server: Server, from: Table, to: Table) {
    exists tables: set<Table> :: from in tables && to !in tables && CascadeClosed(server, tables)
  }

  ghost predicate AllSpare(server: Server, steps: set<DeleteStep>, table: Table) {
    forall step | step in steps :: Spares(server, step.table, table)
  }

  lemma SparedParent(server: Server, from: Table, fk: ForeignKey)
    requires Cascading(server, fk) && Spares(server, from, fk.child)
    ensures Spares(server, from, fk.parent)
  {
    var tables :| from in tables && fk.child !in tables && CascadeClosed(server, tables);
    assert fk.parent !in tables;
  }

  lemma SpareMeansOther(server: Server, from: Table, to: Table)
    ensures Spares(server, from, to) ==> from != to
  {
  }

  /** The kept rows, and every row of the tables no cascade reaches. */
  ghost function WithSpared(server: Server, db: Database, steps: set<DeleteStep>): Database {
    map t | t in db :: if AllSpare(server, steps, t) then db[t] else RowsIn(Kept(server, db, steps), t)
  }

  lemma SparedAround(server: Server, db: Database, steps: set<DeleteStep>)
    ensures Sub(WithSpared(server, db, steps), db)
    ensures Sub(Kept(server, db, steps), WithSpared(server, db, steps))
  {
    var kept, more := Kept(server, db, steps), WithSpared(server, db, steps);
    KeptIsInside(server, db, steps);
    forall t | t in db ensures Within(more[t], db[t]) && Within(kept[t], more[t]) {
      assert Within(kept[t], db[t]);
    }
  }

  lemma WithSparedRow(server: Server, db: Database, steps: set<DeleteStep>, table: Table, id: Key)
    requires NoOrphans(server, db) && id in RowsIn(WithSpared(server, db, steps), table)
    ensures var cells := RowsIn(WithSpared(server, db, steps), table)[id];
            !Orphaned(server, WithSpared(server, db, steps), table, cells) && !Aimed(steps, table, id, cells)
  {
    var kept, more := Kept(server, db, steps), WithSpared(server, db, steps);
    if AllSpare(server, steps, table) {
      SparedRowHasParents(server, db, steps, more, table, id);
      NotAimedAt(server, steps, table, id, db[table][id]);
    } else {
      KeptIsInside(server, db, steps);
      SparedAround(server, db, steps);
      assert id in kept[table] && kept[table][id] == more[table][id];
      OrphansLessOften(server, kept, more, table, more[table][id]);
    }
  }

  lemma WithSparedStays(server: Server, db: Database, steps: set<DeleteStep>)
    requires NoOrphans(server, db)
    ensures Sub(WithSpared(server, db, steps), Kept(server, db, steps))
  {
    var more := WithSpared(server, db, steps);
    SparedAround(server, db, steps);
    forall t, id | t in more && id in more[t]
      ensures !Orphaned(server, more, t, more[t][id]) && !Aimed(steps, t, id, more[t][id])
    {
      WithSparedRow(server, db, steps, t, id);
    }
    assert NoOrphans(server, more) && NothingAimed(steps, more);
    KeptIsGreatest(server, db, steps, more);
  }

  lemma WithinBothWays(a: Rows, b: Rows)
    requires Within(a, b) && Within(b, a)
    ensures a == b
  {
  }

  /** A table no cascade reaches is left as it was. */
  lemma SparedTableStays(server: Server, db: Database, steps: set<DeleteStep>, table: Table)
    requires NoOrphans(server, db) && AllSpare(server, steps, table)
    ensures RowsIn(Kept(server, db, steps), table) == RowsIn(db, table)
  {
    WithSparedStays(server, db, steps);
    KeptIsInside(server, db, steps);
    if table in db {
      assert WithSpared(server, db, steps)[table] == db[table];
      WithinBothWays(db[table], Kept(server, db, steps)[table]);
    }
  }

  lemma NotAimedAt(server: Server, steps: set<DeleteStep>, table: Table, id: Key, cells: Cells)
    requires AllSpare(server, steps, table)
    ensures !Aimed(steps, table, id, cells)
  {
    forall step | step in steps ensures step.table != table {
      SpareMeansOther(server, step.table, table);
    }
  }

  lemma SparedRowHasParents(server: Server, db: Database, steps: set<DeleteStep>, more: Database, table: Table, id: Key)
    requires NoOrphans(server, db) && AllSpare(server, steps, table) && id in RowsIn(db, table)
    requires more.Keys == db.Keys && forall t | t in db && AllSpare(server, steps, t) :: more[t] == db[t]
    ensures !Orphaned(server, more, table, db[table][id])
  {
    assert !Orphaned(server, db, table, db[table][id]);
    forall fk | Cascading(server, fk) && fk.child == table && Cell(db[table][id], fk.column).Text?
      ensures Cell(db[table][id], fk.column).text in RowsIn(more, fk.parent)
    {
      forall step | step in steps ensures Spares(server, step.table, fk.parent) {
        SparedParent(server, step.table, fk);
      }
    }
  }

  /** Further deletes that spare a table change nothing in it. */
  lemma ExtraStepsSpare(server: Server, db: Database, steps: set<DeleteStep>, extra: set<DeleteStep>, table: Table)
    requires AllSpare(server, extra, table)
    ensures RowsIn(Kept(server, db, steps + extra), table) == RowsIn(Kept(server, db, steps), table)
  {
    KeptIsInside(server, db, steps);
    KeptInTurn(server, db, steps, extra);
    SparedTableStays(server, Kept(server, db, steps), extra, table);
  }

  /** A row stays exactly when nothing aims at it and what it refers to through cascading keys stays. */
  lemma KeptExactly(server: Server, db: Database, steps: set<DeleteStep>, table: Table, id: Key)
    ensures id in RowsIn(Kept(server, db, steps), table) <==>
            && id in RowsIn(db, table)
            && !Aimed(steps, table, id, RowsIn(db, table)[id])
            && !Orphaned(server, Kept(server, db, steps), table, RowsIn(db, table)[id])
  {
    var kept := Kept(server, db, steps);
    KeptIsInside(server, db, steps);
    if id in RowsIn(kept, table) {
      SubRow(kept, db, table, id);
      assert !Aimed(steps, table, id, kept[table][id]) && !Orphaned(server, kept, table, kept[table][id]);
    } else if && id in RowsIn(db, table) && !Aimed(steps, table, id, db[table][id])
              && !Orphaned(server, kept, table, db[table][id])
    {
      OneMoreStays(server, db, steps, table, id);
    }
  }

  lemma OneMoreStays(server: Server, db: Database, steps: set<DeleteStep>, table: Table, id: Key)
    requires id in RowsIn(db, table) && !Aimed(steps, table, id, db[table][id])
    requires !Orphaned(server, Kept(server, db, steps), table, db[table][id])
    ensures id in RowsIn(Kept(server, db, steps), table)
  {
    var kept := Kept(server, db, steps);
    KeptIsInside(server, db, steps);
    var more := kept[table := kept[table][id := db[table][id]]];
    AddedRow(kept, db, table, id);
    forall t, r | t in more && r in more[t]
      ensures !Orphaned(server, more, t, more[t][r]) && !Aimed(steps, t, r, more[t][r])
    {
      OrphansLessOften(server, kept, more, t, more[t][r]);
    }
    assert NoOrphans(server, more) && NothingAimed(steps, more);
    KeptIsGreatest(server, db, steps, more);
    SubRow(more, kept, table, id);
  }

  lemma AddedRow(small: Database, large: Database, table: Table, id: Key)
    requires Sub(small, large) && id in RowsIn(large, table)
    ensures Sub(small, small[table := small[table][id := large[table][id]]])
    ensures Sub(small[table := small[table][id := large[table][id]]], large)
  {
    assert Within(small[table], large[table]);
  }

  /** A table whose cascading references lead only to spared tables loses just the rows aimed at. */
  lemma TableLosesOnlyAimed(server: Server, db: Database, steps: set<DeleteStep>, table: Table, id: Key)
    requires NoOrphans(server, db)
    requires forall fk | Cascading(server, fk) && fk.child == table :: AllSpare(server, steps, fk.parent)
    ensures id in RowsIn(Kept(server, db, steps), table) <==>
              id in RowsIn(db, table) && !Aimed(steps, table, id, RowsIn(db, table)[id])
  {
    KeptExactly(server, db, steps, table, id);
    if id in RowsIn(db, table) {
      assert !Orphaned(server, db, table, db[table][id]);
      forall fk | Cascading(server, fk) && fk.child == table && Cell(db[table][id], fk.column).Text?
        ensures Cell(db[table][id], fk.column).text in RowsIn(Kept(server, db, steps), fk.parent)
      {
        SparedTableStays(server, db, steps, fk.parent);
      }
    }
  }

  // ---------- when a delete is refused ----------

  /**
   The row refers to one that this delete takes, and stays itself under this delete and those carried
   out before it.
   */
  ghost predicate Stray(server: Server, db: Database, before: set<DeleteStep>, step: DeleteStep, fk: ForeignKey, id: Key) {
    && fk in server.foreignKeys
    && id in RowsIn(Kept(server, db, before + {step}), fk.child)
    && var cells := RowsIn(Kept(server, db, before + {step}), fk.child)[id];
       && Cell(cells, fk.column).Text?
       && Cell(cells, fk.column).text in RowsIn(db, fk.parent)
       && Cell(cells, fk.column).text !in RowsIn(Kept(server, db, {step}), fk.parent)
  }

  lemma StrayRefuses(server: Server, db: Database, before: set<DeleteStep>, step: DeleteStep, fk: ForeignKey, id: Key)
    requires step.table in db && Stray(server, db, before, step, fk, id)
    ensures TryDelete(server, Kept(server, db, before), step.table, step.where).None?
  {
    KeptIsInside(server, db, before);
    TryDeleteKeeps(server, Kept(server, db, before), step);
    KeptInTurn(server, db, before, {step});
    StrayDangles(server, db, before, step, fk, id);
  }

  lemma StrayDangles(server: Server, db: Database, before: set<DeleteStep>, step: DeleteStep, fk: ForeignKey, id: Key)
    requires Stray(server, db, before, step, fk, id)
    ensures !Holds(fk, Kept(server, db, before + {step}))
  {
    var after := Kept(server, db, before + {step});
    FewerStepsKeepMore(server, db, {step}, before + {step});
    if Holds(fk, after) {
      SubRow(after, Kept(server, db, {step}), fk.parent, Cell(RowsIn(after, fk.child)[id], fk.column).text);
    }
  }

  lemma RefusedByStray(server: Server, db: Database, before: set<DeleteStep>, step: DeleteStep) returns (fk: ForeignKey, id: Key)
    requires Closed(server, Kept(server, db, before)) && step.table in db && step.table !in server.frozen
    requires TryDelete(server, Kept(server, db, before), step.table, step.where).None?
    ensures Stray(server, db, before, step, fk, id)
  {
    var mid, after := Kept(server, db, before), Kept(server, db, before + {step});
    KeptIsInside(server, db, before);
    TryDeleteKeeps(server, mid, step);
    KeptInTurn(server, db, before, {step});
    fk :| fk in server.foreignKeys && !Holds(fk, after);
    assert Holds(fk, mid);
    id :| id in RowsIn(after, fk.child) && Cell(RowsIn(after, fk.child)[id], fk.column).Text?
          && Cell(RowsIn(after, fk.child)[id], fk.column).text !in RowsIn(after, fk.parent);
    var parent := Cell(RowsIn(after, fk.child)[id], fk.column).text;
    FewerStepsKeepMore(server, db, before, before + {step});
    SubRow(after, mid, fk.child, id);
    SubRow(mid, db, fk.parent, parent);
    if parent in RowsIn(Kept(server, db, {step}), fk.parent) {
      KeptByBoth(server, db, before, {step}, fk.parent, parent);
    }
  }

  /** A delete that is reached, and may write its table, is refused exactly when a stray row refers into what it takes. */
  lemma RefusedExactlyWhenStray(server: Server, db: Database, steps: seq<DeleteStep>, i: nat)
    requires Closed(server, db) && RunDeletes(server, db, steps).Some?
    requires i < |steps| && steps[i].table in db && steps[i].table !in server.frozen
    ensures !Accepted(server, db, steps, i) <==>
            exists fk, id :: Stray(server, db, AcceptedSteps(server, db, steps[..i]), steps[i], fk, id)
  {
    var before := AcceptedSteps(server, db, steps[..i]);
    DeletesReachPrefix(server, db, steps, i);
    DeletesKeepClosed(server, db, steps[..i]);
    ClosedHasNoOrphans(server, db);
    DeletePhase(server, db, steps[..i]);
    if !Accepted(server, db, steps, i) {
      var fk, id := RefusedByStray(server, db, before, steps[i]);
    }
    if fk, id :| Stray(server, db, before, steps[i], fk, id) {
      StrayRefuses(server, db, before, steps[i], fk, id);
    }
  }

  lemma RefusedHasStray(server: Server, db: Database, steps: seq<DeleteStep>, i: nat, before: set<DeleteStep>, step: DeleteStep)
    returns (fk: ForeignKey, id: Key)
    requires Closed(server, db) && RunDeletes(server, db, steps).Some?
    requires i < |steps| && step == steps[i] && before == AcceptedSteps(server, db, steps[..i])
    requires step.table in db && step.table !in server.frozen && !Accepted(server, db, steps, i)
    ensures Stray(server, db, before, step, fk, id)
  {
    RefusedExactlyWhenStray(server, db, steps, i);
    fk, id :| Stray(server, db, before, step, fk, id);
  }

  lemma StrayStepRefused(server: Server, db: Database, steps: seq<DeleteStep>, i: nat, before: set<DeleteStep>, step: DeleteStep,
                         fk: ForeignKey, id: Key)
    requires Closed(server, db) && RunDeletes(server, db, steps).Some?
    requires i < |steps| && step == steps[i] && before == AcceptedSteps(server, db, steps[..i])
    requires step.table in db && Stray(server, db, before, step, fk, id)
    ensures !Accepted(server, db, steps, i)
  {
    DeletesReachPrefix(server, db, steps, i);
    ClosedHasNoOrphans(server, db);
    DeletePhase(server, db, steps[..i]);
    StrayRefuses(server, db, before, step, fk, id);
  }
}
