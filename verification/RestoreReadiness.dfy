/**
 When a delete-and-reinsert restore goes through cleanly, that is, with no statement refused: exactly
 when the target database has no stray reference into the rows to be removed, no foreign row under a
 backed-up id, and every parent that the backed-up rows refer to; and, for the keys the two table orders
 do not respect, when no row needs them on the way.
 */
module RestoreReadiness {
  import opened Prelude
  import opened Relational
  import opened DeleteTheory
  import opened RestoreTheory

  ghost function StepsOf(deletes: seq<DeleteStep>): set<DeleteStep> {
    set step | step in deletes
  }

  /** What is left when every delete is carried out. */
  ghost function Survivors(server: Server, db: Database, deletes: seq<DeleteStep>): Database {
    Kept(server, db, StepsOf(deletes))
  }

  /** The delete phase is meant to remove this row, directly or through a cascade. */
  ghost predicate Doomed(server: Server, db: Database, deletes: seq<DeleteStep>, table: Table, id: Key) {
    id in RowsIn(db, table) && id !in RowsIn(Survivors(server, db, deletes), table)
  }

  /** Every delete is accepted and the transaction commits. */
  ghost predicate Clean(server: Server, db: Database, deletes: seq<DeleteStep>, loads: seq<Load>) {
    && Restore(server, db, deletes, loads).Some?
    && forall i | 0 <= i < |deletes| :: Accepted(server, db, deletes, i)
  }

  ghost predicate DeletesMayWrite(server: Server, db: Database, deletes: seq<DeleteStep>) {
    forall i | 0 <= i < |deletes| :: deletes[i].table in db && deletes[i].table !in server.frozen
  }

  ghost predicate LoadsMayWrite(server: Server, db: Database, loads: seq<Load>) {
    forall k | 0 <= k < |loads| && loads[k].rows != [] && loads[k].table in db :: loads[k].table !in server.frozen
  }

  /** No row that stays refers to a row that goes. */
  ghost predicate NoStray(server: Server, db: Database, deletes: seq<DeleteStep>) {
    forall fk, id |
      && fk in server.foreignKeys
      && id in RowsIn(Survivors(server, db, deletes), fk.child)
      && Cell(RowsIn(Survivors(server, db, deletes), fk.child)[id], fk.column).Text? ::
      !Doomed(server, db, deletes, fk.parent, Cell(RowsIn(Survivors(server, db, deletes), fk.child)[id], fk.column).text)
  }

  /** A backed-up id is free, or belongs to a row that goes. */
  ghost predicate NoCollision(server: Server, db: Database, deletes: seq<DeleteStep>, loads: seq<Load>) {
    forall k, n | 0 <= k < |loads| && 0 <= n < |loads[k].rows| ::
      loads[k].rows[n].id !in RowsIn(Survivors(server, db, deletes), loads[k].table)
  }

  ghost predicate ComesBack(db: Database, loads: seq<Load>, table: Table, id: Key) {
    table in db && exists l, m :: 0 <= l < |loads| && 0 <= m < |loads[l].rows| && loads[l].table == table && loads[l].rows[m].id == id
  }

  /** What the n-th row of the k-th load refers to stays, or comes back with the backup. */
  ghost predicate Resolved(server: Server, db: Database, deletes: seq<DeleteStep>, loads: seq<Load>) {
    forall fk, k, n | RowRefers(server, db, loads, fk, k, n) ::
      || Parent(server, loads, fk, k, n) in RowsIn(Survivors(server, db, deletes), fk.parent)
      || ComesBack(db, loads, fk.parent, Parent(server, loads, fk, k, n))
  }

  ghost predicate RowRefers(server: Server, db: Database, loads: seq<Load>, fk: ForeignKey, k: int, n: int) {
    && fk in server.foreignKeys && 0 <= k < |loads| && 0 <= n < |loads[k].rows|
    && loads[k].table == fk.child && fk.child in db
    && Cell(Stored(server, fk.child, loads[k].rows[n].cells), fk.column).Text?
  }

  ghost function Parent(server: Server, loads: seq<Load>, fk: ForeignKey, k: int, n: int): Key
    requires 0 <= k < |loads| && 0 <= n < |loads[k].rows|
    requires Cell(Stored(server, fk.child, loads[k].rows[n].cells), fk.column).Text?
  {
    Cell(Stored(server, fk.child, loads[k].rows[n].cells), fk.column).text
  }

  ghost predicate Ready(server: Server, db: Database, deletes: seq<DeleteStep>, loads: seq<Load>) {
    && DeletesMayWrite(server, db, deletes) && LoadsMayWrite(server, db, loads)
    && NoStray(server, db, deletes)
    && NoCollision(server, db, deletes, loads)
    && Resolved(server, db, deletes, loads)
  }

  // ---------- on the way ----------

  /** After each delete the key holds among the rows that are left by then. */
  ghost predicate HoldsOnTheWay(server: Server, db: Database, deletes: seq<DeleteStep>, fk: ForeignKey) {
    forall i | 0 <= i <= |deletes| :: Holds(fk, Survivors(server, db, deletes[..i]))
  }

  /** The id is that of the row itself or of one written before it. */
  ghost predicate WrittenBy(db: Database, loads: seq<Load>, table: Table, id: Key, k: int, n: int) {
    table in db && exists l, m ::
      && 0 <= l < |loads| && 0 <= m < |loads[l].rows| && loads[l].table == table && loads[l].rows[m].id == id
      && (l < k || (l == k && m <= n))
  }

  ghost predicate ResolvedOnTheWay(server: Server, db: Database, deletes: seq<DeleteStep>, loads: seq<Load>, fk: ForeignKey) {
    forall k, n | RowRefers(server, db, loads, fk, k, n) ::
      || Parent(server, loads, fk, k, n) in RowsIn(Survivors(server, db, deletes), fk.parent)
      || WrittenBy(db, loads, fk.parent, Parent(server, loads, fk, k, n), k, n)
  }

  /** No row needs the key while its parent is already gone, or not yet back. */
  ghost predicate InOrder(server: Server, db: Database, deletes: seq<DeleteStep>, loads: seq<Load>, fk: ForeignKey) {
    HoldsOnTheWay(server, db, deletes, fk) && ResolvedOnTheWay(server, db, deletes, loads, fk)
  }

  /**
   For every key but the late ones both table orders fit: children go first, also where rows go through
   a cascade, and parents come back first.
   */
  ghost predicate OrderFits(server: Server, deletes: seq<DeleteStep>, loads: seq<Load>, late: set<ForeignKey>) {
    && (forall fk, i, j | fk in server.foreignKeys && fk !in late && !Cascading(server, fk) && 0 <= i < j < |deletes| ::
          Spares(server, deletes[i].table, fk.parent) || Spares(server, deletes[j].table, fk.child))
    && (forall fk, k, l | fk in server.foreignKeys && fk !in late && 0 <= k < |loads| && loads[k].table == fk.child
                          && 0 <= l < |loads| && loads[l].table == fk.parent :: l < k)
  }

  /** A program of distinct tables whose loads strip computed columns. */
  ghost predicate WellFormed(deletes: seq<DeleteStep>, loads: seq<Load>) {
    && DistinctDeletes(deletes) && DistinctLoads(loads)
    && forall k | 0 <= k < |loads| :: loads[k].mode == SkipComputed && DistinctIds(loads[k].rows)
  }

  // ---------- deletes ----------

  lemma NoStrayMeansClosed(server: Server, db: Database, deletes: seq<DeleteStep>)
    requires Closed(server, db)
    ensures NoStray(server, db, deletes) <==> Closed(server, Survivors(server, db, deletes))
  {
    var left := Survivors(server, db, deletes);
    KeptIsInside(server, db, StepsOf(deletes));
    forall fk, id | fk in server.foreignKeys && id in RowsIn(left, fk.child) && Cell(RowsIn(left, fk.child)[id], fk.column).Text?
      ensures Cell(RowsIn(left, fk.child)[id], fk.column).text in RowsIn(db, fk.parent)
    {
      SubRow(left, db, fk.child, id);
      assert Holds(fk, db);
    }
    if NoStray(server, db, deletes) {
      forall fk | fk in server.foreignKeys ensures Holds(fk, left) { }
    }
    if Closed(server, left) {
      forall fk, id | fk in server.foreignKeys && id in RowsIn(left, fk.child) && Cell(RowsIn(left, fk.child)[id], fk.column).Text?
        ensures !Doomed(server, db, deletes, fk.parent, Cell(RowsIn(left, fk.child)[id], fk.column).text)
      {
        assert Holds(fk, left);
      }
    }
  }

  lemma StepsOfPrefix(deletes: seq<DeleteStep>, i: nat)
    requires i < |deletes|
    ensures StepsOf(deletes[..i + 1]) == StepsOf(deletes[..i]) + {deletes[i]}
  {
    assert deletes[..i + 1] == deletes[..i] + [deletes[i]];
  }

  lemma AllAccepted(server: Server, db: Database, steps: seq<DeleteStep>)
    requires forall i | 0 <= i < |steps| :: Accepted(server, db, steps, i)
    ensures AcceptedSteps(server, db, steps) == StepsOf(steps)
  {
    forall step | step in steps ensures Accepts(server, db, steps, step) {
      var i :| 0 <= i < |steps| && steps[i] == step;
      assert Accepted(server, db, steps, i);
    }
  }

  /** When no delete is refused, each leaves what it and those before it leave. */
  lemma AcceptedLeavesSurvivors(server: Server, db: Database, deletes: seq<DeleteStep>, i: nat)
    requires NoOrphans(server, db) && RunDeletes(server, db, deletes).Some? && i <= |deletes|
    requires forall j | 0 <= j < i :: Accepted(server, db, deletes, j)
    ensures RunDeletes(server, db, deletes[..i]) == Some(Survivors(server, db, deletes[..i]))
  {
    DeletesReachPrefix(server, db, deletes, i);
    DeletePhase(server, db, deletes[..i]);
    AcceptedInPrefix(server, db, deletes, i);
    AllAccepted(server, db, deletes[..i]);
  }

  lemma CleanDeletesHold(server: Server, db: Database, deletes: seq<DeleteStep>, fk: ForeignKey)
    requires Closed(server, db) && RunDeletes(server, db, deletes).Some? && fk in server.foreignKeys
    requires forall j | 0 <= j < |deletes| :: Accepted(server, db, deletes, j)
    ensures HoldsOnTheWay(server, db, deletes, fk)
  {
    ClosedHasNoOrphans(server, db);
    forall i | 0 <= i <= |deletes| ensures Holds(fk, Survivors(server, db, deletes[..i])) {
      AcceptedLeavesSurvivors(server, db, deletes, i);
      DeletesKeepClosed(server, db, deletes[..i]);
    }
  }

  lemma OneMoreGoesThrough(server: Server, db: Database, deletes: seq<DeleteStep>, i: nat)
    requires DeletesMayWrite(server, db, deletes) && i < |deletes|
    requires forall fk | fk in server.foreignKeys :: HoldsOnTheWay(server, db, deletes, fk)
    ensures TryDelete(server, Survivors(server, db, deletes[..i]), deletes[i].table, deletes[i].where) ==
            Some(Survivors(server, db, deletes[..i + 1]))
  {
    var mid, after := Survivors(server, db, deletes[..i]), Survivors(server, db, deletes[..i + 1]);
    KeptIsInside(server, db, StepsOf(deletes[..i]));
    TryDeleteKeeps(server, mid, deletes[i]);
    KeptInTurn(server, db, StepsOf(deletes[..i]), {deletes[i]});
    StepsOfPrefix(deletes, i);
    forall fk | fk in server.foreignKeys ensures Holds(fk, after) {
      assert HoldsOnTheWay(server, db, deletes, fk);
    }
  }

  lemma OneMoreStep(server: Server, db: Database, deletes: seq<DeleteStep>, i: nat, mid: Database, after: Database)
    requires i < |deletes| && RunDeletes(server, db, deletes[..i]) == Some(mid)
    requires TryDelete(server, mid, deletes[i].table, deletes[i].where) == Some(after)
    ensures RunDeletes(server, db, deletes[..i + 1]) == Some(after) && Accepted(server, db, deletes, i)
  {
    assert deletes[..i + 1][..i] == deletes[..i];
  }

  /** A run follows any sequence of states that each delete leads along. */
  lemma {:induction false} RunFollows(server: Server, deletes: seq<DeleteStep>, states: seq<Database>, i: nat)
    requires i <= |deletes| && |states| == |deletes| + 1
    requires forall j | 0 <= j < |deletes| :: TryDelete(server, states[j], deletes[j].table, deletes[j].where) == Some(states[j + 1])
    ensures RunDeletes(server, states[0], deletes[..i]) == Some(states[i])
    ensures forall j | 0 <= j < i :: Accepted(server, states[0], deletes, j)
  {
    if i > 0 {
      RunFollows(server, deletes, states, i - 1);
      var j := i - 1;
      assert TryDelete(server, states[j], deletes[j].table, deletes[j].where) == Some(states[j + 1]);
      OneMoreStep(server, states[0], deletes, j, states[j], states[j + 1]);
    }
  }

  lemma DeletesGoThrough(server: Server, db: Database, deletes: seq<DeleteStep>)
    requires Closed(server, db) && DeletesMayWrite(server, db, deletes)
    requires forall fk | fk in server.foreignKeys :: HoldsOnTheWay(server, db, deletes, fk)
    ensures RunDeletes(server, db, deletes) == Some(Survivors(server, db, deletes))
    ensures forall j | 0 <= j < |deletes| :: Accepted(server, db, deletes, j)
  {
    var states := seq(|deletes| + 1, i requires 0 <= i <= |deletes| => Survivors(server, db, deletes[..i]));
    SurvivorsOfNothing(server, db, deletes);
    forall j | 0 <= j < |deletes|
      ensures TryDelete(server, states[j], deletes[j].table, deletes[j].where) == Some(states[j + 1])
    {
      OneMoreGoesThrough(server, db, deletes, j);
    }
    RunFollows(server, deletes, states, |deletes|);
    assert deletes[..|deletes|] == deletes;
  }

  lemma SurvivorsOfNothing(server: Server, db: Database, deletes: seq<DeleteStep>)
    requires Closed(server, db)
    ensures Survivors(server, db, deletes[..0]) == db
  {
    assert StepsOf(deletes[..0]) == {};
    ClosedHasNoOrphans(server, db);
    KeptOfNothing(server, db);
  }

  // ---------- deletes in an order that fits ----------

  lemma StepsOfRest(deletes: seq<DeleteStep>, i: nat)
    requires i <= |deletes|
    ensures StepsOf(deletes) == StepsOf(deletes[..i]) + StepsOf(deletes[i..])
    ensures forall step | step in StepsOf(deletes[i..]) :: exists j :: i <= j < |deletes| && deletes[j] == step
  {
    assert deletes == deletes[..i] + deletes[i..];
    forall step | step in deletes[i..] ensures exists j :: i <= j < |deletes| && deletes[j] == step {
      var m :| 0 <= m < |deletes[i..]| && deletes[i..][m] == step;
      assert deletes[i + m] == step;
    }
  }

  /** What a later delete takes, its cascades reach. */
  lemma LaterDeleteReaches(server: Server, db: Database, deletes: seq<DeleteStep>, i: nat, table: Table, id: Key) returns (j: nat)
    requires i <= |deletes|
    requires id in RowsIn(Survivors(server, db, deletes[..i]), table)
    requires id !in RowsIn(Survivors(server, db, deletes), table)
    ensures i <= j < |deletes| && !Spares(server, deletes[j].table, table)
  {
    var rest := StepsOf(deletes[i..]);
    StepsOfRest(deletes, i);
    if AllSpare(server, rest, table) {
      ExtraStepsSpare(server, db, StepsOf(deletes[..i]), rest, table);
    }
    var step :| step in rest && !Spares(server, step.table, table);
    j :| i <= j < |deletes| && deletes[j] == step;
  }

  lemma EarlierDeleteReaches(server: Server, db: Database, deletes: seq<DeleteStep>, i: nat, table: Table, id: Key) returns (j: nat)
    requires NoOrphans(server, db) && i <= |deletes| && id in RowsIn(db, table)
    requires id !in RowsIn(Survivors(server, db, deletes[..i]), table)
    ensures j < i && !Spares(server, deletes[j].table, table)
  {
    var before := deletes[..i];
    if AllSpare(server, StepsOf(before), table) {
      SparedTableStays(server, db, StepsOf(before), table);
    }
    var step :| step in StepsOf(before) && !Spares(server, step.table, table);
    j :| 0 <= j < |before| && before[j] == step;
  }

  lemma PrefixKeepsMore(server: Server, db: Database, deletes: seq<DeleteStep>, i: nat)
    requires i <= |deletes|
    ensures Sub(Survivors(server, db, deletes), Survivors(server, db, deletes[..i]))
    ensures Sub(Survivors(server, db, deletes[..i]), db)
  {
    FewerStepsKeepMore(server, db, StepsOf(deletes[..i]), StepsOf(deletes));
    KeptIsInside(server, db, StepsOf(deletes[..i]));
  }

  /** A key the delete order fits never has a row waiting whose parent is gone. */
  lemma FittingKeyHolds(server: Server, db: Database, deletes: seq<DeleteStep>, loads: seq<Load>, late: set<ForeignKey>, fk: ForeignKey)
    requires Closed(server, db) && OrderFits(server, deletes, loads, late)
    requires NoStray(server, db, deletes) && fk in server.foreignKeys && fk !in late
    ensures HoldsOnTheWay(server, db, deletes, fk)
  {
    ClosedHasNoOrphans(server, db);
    NoStrayMeansClosed(server, db, deletes);
    forall i | 0 <= i <= |deletes| ensures Holds(fk, Survivors(server, db, deletes[..i])) {
      var left := Survivors(server, db, deletes[..i]);
      forall id | id in RowsIn(left, fk.child) && Cell(RowsIn(left, fk.child)[id], fk.column).Text?
        ensures Cell(RowsIn(left, fk.child)[id], fk.column).text in RowsIn(left, fk.parent)
      {
        FittingRowHolds(server, db, deletes, loads, late, fk, i, id);
      }
    }
  }

  lemma FittingRowHolds(server: Server, db: Database, deletes: seq<DeleteStep>, loads: seq<Load>, late: set<ForeignKey>,
                        fk: ForeignKey, i: nat, id: Key)
    requires Closed(server, db) && NoOrphans(server, db) && OrderFits(server, deletes, loads, late)
    requires Closed(server, Survivors(server, db, deletes)) && fk in server.foreignKeys && fk !in late
    requires i <= |deletes| && id in RowsIn(Survivors(server, db, deletes[..i]), fk.child)
    requires Cell(RowsIn(Survivors(server, db, deletes[..i]), fk.child)[id], fk.column).Text?
    ensures Cell(RowsIn(Survivors(server, db, deletes[..i]), fk.child)[id], fk.column).text in
            RowsIn(Survivors(server, db, deletes[..i]), fk.parent)
  {
    var left, last := Survivors(server, db, deletes[..i]), Survivors(server, db, deletes);
    var parent := Cell(RowsIn(left, fk.child)[id], fk.column).text;
    PrefixKeepsMore(server, db, deletes, i);
    SubRow(left, db, fk.child, id);
    assert Holds(fk, db) && parent in RowsIn(db, fk.parent);
    if id in RowsIn(last, fk.child) {
      SubRow(last, left, fk.child, id);
      assert Holds(fk, last);
      SubRow(last, left, fk.parent, parent);
    } else if parent !in RowsIn(left, fk.parent) {
      var j := LaterDeleteReaches(server, db, deletes, i, fk.child, id);
      var m := EarlierDeleteReaches(server, db, deletes, i, fk.parent, parent);
      CascadeTakesChild(server, db, StepsOf(deletes[..i]), fk, id);
    }
  }

  /** A row that stays has the row it refers to through a cascading key. */
  lemma CascadeTakesChild(server: Server, db: Database, steps: set<DeleteStep>, fk: ForeignKey, id: Key)
    requires id in RowsIn(Kept(server, db, steps), fk.child)
    requires Cell(RowsIn(Kept(server, db, steps), fk.child)[id], fk.column).Text?
    ensures Cascading(server, fk) ==>
              Cell(RowsIn(Kept(server, db, steps), fk.child)[id], fk.column).text in RowsIn(Kept(server, db, steps), fk.parent)
  {
    KeptIsInside(server, db, steps);
    var kept := Kept(server, db, steps);
    assert !Orphaned(server, kept, fk.child, kept[fk.child][id]);
  }

  lemma OnTheWayMeansNoStray(server: Server, db: Database, deletes: seq<DeleteStep>)
    requires Closed(server, db)
    requires forall fk | fk in server.foreignKeys :: HoldsOnTheWay(server, db, deletes, fk)
    ensures NoStray(server, db, deletes)
  {
    assert deletes[..|deletes|] == deletes;
    forall fk | fk in server.foreignKeys ensures Holds(fk, Survivors(server, db, deletes)) {
      assert HoldsOnTheWay(server, db, deletes, fk);
    }
    NoStrayMeansClosed(server, db, deletes);
  }

  // ---------- loads ----------

  lemma {:induction false} LoadsKeepClosed(server: Server, db: Database, loads: seq<Load>)
    requires Closed(server, db) && RunLoads(server, db, loads).Some?
    ensures Closed(server, RunLoads(server, db, loads).value)
  {
    if loads != [] {
      var n := |loads| - 1;
      LoadsKeepClosed(server, db, loads[..n]);
      var mid := RunLoads(server, db, loads[..n]).value;
      if loads[n].table in mid {
        RowsKeepClosed(server, mid, loads[n].table, loads[n].rows, loads[n].mode);
      }
    }
  }

  lemma {:induction false} RowsKeepClosed(server: Server, db: Database, table: Table, rows: seq<Record>, mode: Mode)
    requires Closed(server, db) && table in db && WriteRows(server, db, table, rows, mode).Some?
    ensures Closed(server, WriteRows(server, db, table, rows, mode).value)
  {
    if rows != [] {
      RowsKeepClosed(server, db, table, rows[..|rows| - 1], mode);
      RowKeepsClosed(server, WriteRows(server, db, table, rows[..|rows| - 1], mode).value, table, rows[|rows| - 1], mode);
    }
  }

  lemma RowKeepsClosed(server: Server, db: Database, table: Table, row: Record, mode: Mode)
    requires table in db && WriteRow(server, db, table, row, mode).Some?
    ensures Closed(server, WriteRow(server, db, table, row, mode).value)
  {
  }

  lemma {:induction false} WrittenIsNotFrozen(server: Server, db: Database, loads: seq<Load>, k: nat)
    requires RunLoads(server, db, loads).Some?
    requires k < |loads| && loads[k].rows != [] && loads[k].table in db
    ensures loads[k].table !in server.frozen
  {
    var n := |loads| - 1;
    if k < n {
      WrittenIsNotFrozen(server, db, loads[..n], k);
    }
  }

  lemma InsertKeepsHolds(db: Database, table: Table, id: Key, cells: Cells, fk: ForeignKey)
    requires table in db && id !in db[table] && Holds(fk, db)
    requires fk.child == table && Cell(cells, fk.column).Text? ==>
               || Cell(cells, fk.column).text in RowsIn(db, fk.parent)
               || (fk.parent == table && Cell(cells, fk.column).text == id)
    ensures Holds(fk, db[table := db[table][id := cells]])
  {
    var after := db[table := db[table][id := cells]];
    assert forall p | p in RowsIn(db, fk.parent) :: p in RowsIn(after, fk.parent);
    forall c | c in RowsIn(after, fk.child) && Cell(RowsIn(after, fk.child)[c], fk.column).Text?
      ensures Cell(RowsIn(after, fk.child)[c], fk.column).text in RowsIn(after, fk.parent)
    {
      if fk.child == table && c == id { } else {
        assert c in RowsIn(db, fk.child) && RowsIn(db, fk.child)[c] == RowsIn(after, fk.child)[c];
      }
    }
  }

  /** One more row can be inserted when its id is free and its references are in place. */
  lemma InsertGoesThrough(server: Server, db: Database, table: Table, row: Record)
    requires Closed(server, db) && table in db && table !in server.frozen && row.id !in db[table]
    requires forall fk | fk in server.foreignKeys && fk.child == table
                         && Cell(Stored(server, table, row.cells), fk.column).Text? ::
               || Cell(Stored(server, table, row.cells), fk.column).text in RowsIn(db, fk.parent)
               || (fk.parent == table && Cell(Stored(server, table, row.cells), fk.column).text == row.id)
    ensures WriteRow(server, db, table, row, SkipComputed).Some?
  {
    StoredIgnoresComputed(server, table, row.cells);
    var after := db[table := db[table][row.id := Stored(server, table, row.cells)]];
    forall fk | fk in server.foreignKeys ensures Holds(fk, after) {
      InsertKeepsHolds(db, table, row.id, Stored(server, table, row.cells), fk);
    }
  }

  /** The row finds what it refers to in the table, in `db`, or among the rows written before it. */
  ghost predicate Finds(server: Server, db: Database, table: Table, rows: seq<Record>, n: nat, fk: ForeignKey)
    requires n < |rows|
  {
    var cell := Cell(Stored(server, table, rows[n].cells), fk.column);
    cell.Text? ==>
      || cell.text in RowsIn(db, fk.parent)
      || (fk.parent == table && exists m :: 0 <= m <= n && rows[m].id == cell.text)
  }

  lemma {:induction false} ReadyRowsGoThrough(server: Server, db: Database, table: Table, rows: seq<Record>)
    requires Closed(server, db) && table in db && table !in server.frozen && DistinctIds(rows)
    requires forall n | 0 <= n < |rows| :: rows[n].id !in db[table]
    requires forall fk, n | fk in server.foreignKeys && fk.child == table && 0 <= n < |rows| :: Finds(server, db, table, rows, n, fk)
    ensures WriteRows(server, db, table, rows, SkipComputed).Some?
  {
    if rows != [] {
      var n := |rows| - 1;
      var init := rows[..n];
      forall fk, m | fk in server.foreignKeys && fk.child == table && 0 <= m < n ensures Finds(server, db, table, init, m, fk) {
        assert Finds(server, db, table, rows, m, fk);
        ShorterFinds(server, db, table, rows, n, m, fk);
      }
      ReadyRowsGoThrough(server, db, table, init);
      var mid := WriteRows(server, db, table, init, SkipComputed).value;
      RowsWritten(server, db, mid, table, init);
      LastRowGoesThrough(server, db, mid, table, rows, n);
    }
  }

  lemma RowsWritten(server: Server, db: Database, mid: Database, table: Table, rows: seq<Record>)
    requires Closed(server, db) && table in db && WriteRows(server, db, table, rows, SkipComputed) == Some(mid)
    ensures Closed(server, mid) && mid == db[table := db[table] + Image(server, table, rows)]
  {
    RowsKeepClosed(server, db, table, rows, SkipComputed);
    InsertedRows(server, db, table, rows, SkipComputed);
  }

  lemma ShorterFinds(server: Server, db: Database, table: Table, rows: seq<Record>, n: nat, m: nat, fk: ForeignKey)
    requires m < n <= |rows| && Finds(server, db, table, rows, m, fk)
    ensures Finds(server, db, table, rows[..n], m, fk)
  {
    var cell := Cell(Stored(server, table, rows[m].cells), fk.column);
    if cell.Text? && cell.text !in RowsIn(db, fk.parent) {
      var p :| 0 <= p <= m && rows[p].id == cell.text;
      assert rows[..n][p].id == cell.text;
    }
  }

  lemma LastRowGoesThrough(server: Server, db: Database, mid: Database, table: Table, rows: seq<Record>, n: nat)
    requires Closed(server, mid) && table in db && table !in server.frozen && DistinctIds(rows) && |rows| == n + 1
    requires rows[n].id !in db[table]
    requires mid == db[table := db[table] + Image(server, table, rows[..n])]
    requires forall fk | fk in server.foreignKeys && fk.child == table :: Finds(server, db, table, rows, n, fk)
    ensures WriteRow(server, mid, table, rows[n], SkipComputed).Some?
  {
    ImageKeys(server, table, rows[..n]);
    assert rows[n].id !in mid[table];
    forall fk | fk in server.foreignKeys && fk.child == table && Cell(Stored(server, table, rows[n].cells), fk.column).Text?
      ensures || Cell(Stored(server, table, rows[n].cells), fk.column).text in RowsIn(mid, fk.parent)
              || (fk.parent == table && Cell(Stored(server, table, rows[n].cells), fk.column).text == rows[n].id)
    {
      var text := Cell(Stored(server, table, rows[n].cells), fk.column).text;
      assert Finds(server, db, table, rows, n, fk);
      if text !in RowsIn(db, fk.parent) {
        var m :| 0 <= m <= n && rows[m].id == text;
        if m < n {
          assert rows[..n][m].id == text;
          assert text in Image(server, table, rows[..n]).Keys;
        }
      }
    }
    InsertGoesThrough(server, mid, table, rows[n]);
  }

  ghost predicate ReadyToLoad(server: Server, db: Database, mid: Database, loads: seq<Load>) {
    && Closed(server, mid) && mid.Keys == db.Keys && DistinctLoads(loads)
    && (forall k | 0 <= k < |loads| :: loads[k].mode == SkipComputed && DistinctIds(loads[k].rows))
    && LoadsMayWrite(server, db, loads)
    && (forall k, n | 0 <= k < |loads| && 0 <= n < |loads[k].rows| :: loads[k].rows[n].id !in RowsIn(mid, loads[k].table))
    && (forall fk, k, n | RowRefers(server, db, loads, fk, k, n) ::
          || Parent(server, loads, fk, k, n) in RowsIn(mid, fk.parent)
          || WrittenBy(db, loads, fk.parent, Parent(server, loads, fk, k, n), k, n))
  }

  lemma {:induction false} ReadyLoadsGoThrough(server: Server, db: Database, mid: Database, loads: seq<Load>, k: nat)
    requires ReadyToLoad(server, db, mid, loads) && k <= |loads|
    ensures RunLoads(server, mid, loads[..k]).Some?
  {
    if k > 0 {
      ReadyLoadsGoThrough(server, db, mid, loads, k - 1);
      assert loads[..k][..k - 1] == loads[..k - 1];
      OneMoreLoad(server, db, mid, loads, k - 1);
    }
  }

  lemma OneMoreLoad(server: Server, db: Database, mid: Database, loads: seq<Load>, k: nat)
    requires ReadyToLoad(server, db, mid, loads) && k < |loads| && RunLoads(server, mid, loads[..k]).Some?
    ensures RunLoad(server, RunLoads(server, mid, loads[..k]).value, loads[k]).Some?
  {
    var before, load := loads[..k], loads[k];
    var now := RunLoads(server, mid, before).value;
    LoadsKeepClosed(server, mid, before);
    LoadPhase(server, mid, before);
    assert forall l | 0 <= l < k :: before[l] == loads[l];
    assert !LoadsInto(before, load.table);
    if load.rows != [] && load.table in now {
      assert RowsIn(now, load.table) == RowsIn(mid, load.table);
      forall fk, n | fk in server.foreignKeys && fk.child == load.table && 0 <= n < |load.rows|
        ensures Finds(server, now, load.table, load.rows, n, fk)
      {
        RowFindsParent(server, db, mid, loads, k, n, fk);
      }
      assert forall n | 0 <= n < |load.rows| :: loads[k].rows[n].id !in RowsIn(mid, load.table);
      ReadyRowsGoThrough(server, now, load.table, load.rows);
    }
  }

  lemma RowFindsParent(server: Server, db: Database, mid: Database, loads: seq<Load>, k: nat, n: nat, fk: ForeignKey)
    requires ReadyToLoad(server, db, mid, loads) && k < |loads| && RunLoads(server, mid, loads[..k]).Some?
    requires n < |loads[k].rows| && fk in server.foreignKeys && fk.child == loads[k].table && fk.child in db
    ensures Finds(server, RunLoads(server, mid, loads[..k]).value, fk.child, loads[k].rows, n, fk)
  {
    if Cell(Stored(server, fk.child, loads[k].rows[n].cells), fk.column).Text? {
      var now := RunLoads(server, mid, loads[..k]).value;
      assert RowRefers(server, db, loads, fk, k, n);
      var parent := Parent(server, loads, fk, k, n);
      if parent in RowsIn(mid, fk.parent) {
        assert forall l | 0 <= l < k :: loads[..k][l] == loads[l];
        assert !UpsertsInto(loads[..k], fk.parent);
        LoadsKeepRows(server, mid, loads[..k], fk.parent);
      } else {
        var l, m :| && 0 <= l < |loads| && 0 <= m < |loads[l].rows| && loads[l].table == fk.parent && loads[l].rows[m].id == parent
                    && (l < k || (l == k && m <= n));
        if l < k {
          WrittenIsThere(server, mid, loads, k, l, m);
        }
      }
    }
  }

  lemma WrittenIsThere(server: Server, mid: Database, loads: seq<Load>, k: nat, l: nat, m: nat)
    requires DistinctLoads(loads) && l < k <= |loads| && RunLoads(server, mid, loads[..k]).Some?
    requires loads[l].mode == SkipComputed && m < |loads[l].rows| && loads[l].table in mid
    ensures loads[l].rows[m].id in RowsIn(RunLoads(server, mid, loads[..k]).value, loads[l].table)
  {
    assert forall i | 0 <= i < k :: loads[..k][i] == loads[i];
    LoadOf(server, mid, loads[..k], l);
    ImageKeys(server, loads[l].table, loads[l].rows);
  }

  // ---------- what a clean restore needs ----------

  /** A clean restore leaves, in every table, the rows that stay and the backed-up ones. */
  lemma CleanResult(server: Server, db: Database, deletes: seq<DeleteStep>, loads: seq<Load>)
    requires NoOrphans(server, db) && WellFormed(deletes, loads) && Clean(server, db, deletes, loads)
    ensures var after, left := Restore(server, db, deletes, loads).value, Survivors(server, db, deletes);
            && RunDeletes(server, db, deletes) == Some(left)
            && after.Keys == db.Keys && left.Keys == db.Keys
            && (forall table :: !LoadsInto(loads, table) ==> RowsIn(after, table) == RowsIn(left, table))
            && (forall k | 0 <= k < |loads| && loads[k].table in db ::
                  && after[loads[k].table] == left[loads[k].table] + Image(server, loads[k].table, loads[k].rows)
                  && Image(server, loads[k].table, loads[k].rows).Keys !! left[loads[k].table].Keys)
  {
    var left := Survivors(server, db, deletes);
    AcceptedLeavesSurvivors(server, db, deletes, |deletes|);
    assert deletes[..|deletes|] == deletes;
    KeptIsInside(server, db, StepsOf(deletes));
    LoadPhase(server, left, loads);
    forall k | 0 <= k < |loads| && loads[k].table in db
      ensures LoadedAs(server, loads[k], left[loads[k].table], Restore(server, db, deletes, loads).value[loads[k].table])
    {
    }
  }

  lemma CleanIsWritable(server: Server, db: Database, deletes: seq<DeleteStep>, loads: seq<Load>)
    requires Clean(server, db, deletes, loads)
    ensures DeletesMayWrite(server, db, deletes) && LoadsMayWrite(server, db, loads)
  {
    forall i | 0 <= i < |deletes| ensures deletes[i].table in db && deletes[i].table !in server.frozen {
      assert Accepted(server, db, deletes, i);
      KeysKept(server, db, deletes[..i]);
    }
    KeysKept(server, db, deletes);
    forall k | 0 <= k < |loads| && loads[k].rows != [] && loads[k].table in db ensures loads[k].table !in server.frozen {
      WrittenIsNotFrozen(server, RunDeletes(server, db, deletes).value, loads, k);
    }
  }

  /** When a row has been written, what it refers to is there. */
  lemma WrittenRowIsResolved(server: Server, db: Database, table: Table, rows: seq<Record>, n: nat, fk: ForeignKey)
    requires Closed(server, db) && table in db && n < |rows| && DistinctIds(rows)
    requires WriteRows(server, db, table, rows, SkipComputed).Some? && fk in server.foreignKeys && fk.child == table
    ensures Finds(server, db, table, rows, n, fk)
  {
    var done := rows[..n + 1];
    RowsReachPrefix(server, db, table, rows, SkipComputed, n + 1);
    var after := WriteRows(server, db, table, done, SkipComputed).value;
    RowsWritten(server, db, after, table, done);
    ImageAt(server, table, done, n);
    assert Holds(fk, after);
    HeldIsFound(server, db, after, table, rows, n, fk);
  }

  lemma HeldIsFound(server: Server, db: Database, after: Database, table: Table, rows: seq<Record>, n: nat, fk: ForeignKey)
    requires table in db && n < |rows| && fk.child == table && Holds(fk, after)
    requires after == db[table := db[table] + Image(server, table, rows[..n + 1])]
    requires rows[n].id in RowsIn(after, table) && after[table][rows[n].id] == Stored(server, table, rows[n].cells)
    ensures Finds(server, db, table, rows, n, fk)
  {
    var cell := Cell(Stored(server, table, rows[n].cells), fk.column);
    if cell.Text? && cell.text !in RowsIn(db, fk.parent) {
      assert cell.text in RowsIn(after, fk.parent);
      MentionedInImage(server, table, rows[..n + 1], cell.text);
      var m :| 0 <= m < n + 1 && rows[..n + 1][m].id == cell.text;
      assert rows[m].id == cell.text;
    }
  }

  lemma MentionedInImage(server: Server, table: Table, rows: seq<Record>, id: Key)
    requires id in Image(server, table, rows)
    ensures exists m :: 0 <= m < |rows| && rows[m].id == id
  {
    ImageKeys(server, table, rows);
    assert id in Image(server, table, rows).Keys;
  }

  lemma CleanIsResolved(server: Server, db: Database, deletes: seq<DeleteStep>, loads: seq<Load>, fk: ForeignKey)
    requires Closed(server, db) && WellFormed(deletes, loads) && Clean(server, db, deletes, loads)
    requires fk in server.foreignKeys
    ensures ResolvedOnTheWay(server, db, deletes, loads, fk)
  {
    var mid := Survivors(server, db, deletes);
    ClosedHasNoOrphans(server, db);
    CleanResult(server, db, deletes, loads);
    DeletesKeepClosed(server, db, deletes);
    forall k, n | RowRefers(server, db, loads, fk, k, n)
      ensures || Parent(server, loads, fk, k, n) in RowsIn(mid, fk.parent)
              || WrittenBy(db, loads, fk.parent, Parent(server, loads, fk, k, n), k, n)
    {
      LoadedRowIsResolved(server, db, mid, loads, fk, k, n);
    }
  }

  lemma LoadedRowIsResolved(server: Server, db: Database, mid: Database, loads: seq<Load>, fk: ForeignKey, k: nat, n: nat)
    requires Closed(server, mid) && mid.Keys == db.Keys && RunLoads(server, mid, loads).Some? && DistinctLoads(loads)
    requires forall i | 0 <= i < |loads| :: loads[i].mode == SkipComputed && DistinctIds(loads[i].rows)
    requires RowRefers(server, db, loads, fk, k, n)
    ensures || Parent(server, loads, fk, k, n) in RowsIn(mid, fk.parent)
            || WrittenBy(db, loads, fk.parent, Parent(server, loads, fk, k, n), k, n)
  {
    LoadsReachPrefix(server, mid, loads, k);
    LoadsReachPrefix(server, mid, loads, k + 1);
    assert loads[..k + 1][..k] == loads[..k];
    var now := RunLoads(server, mid, loads[..k]).value;
    LoadsKeepClosed(server, mid, loads[..k]);
    WrittenRowIsResolved(server, now, fk.child, loads[k].rows, n, fk);
    var parent := Parent(server, loads, fk, k, n);
    if parent in RowsIn(now, fk.parent) {
      FoundWasWritten(server, mid, loads, k, fk.parent, parent);
    }
  }

  lemma FoundWasWritten(server: Server, mid: Database, loads: seq<Load>, k: nat, table: Table, id: Key)
    requires DistinctLoads(loads) && k <= |loads| && RunLoads(server, mid, loads[..k]).Some?
    requires forall i | 0 <= i < |loads| :: loads[i].mode == SkipComputed
    requires id in RowsIn(RunLoads(server, mid, loads[..k]).value, table)
    ensures id in RowsIn(mid, table) ||
            (table in mid && exists l, m :: 0 <= l < k && 0 <= m < |loads[l].rows| && loads[l].table == table && loads[l].rows[m].id == id)
  {
    var before := loads[..k];
    assert forall i | 0 <= i < k :: before[i] == loads[i];
    if !LoadsInto(before, table) {
      LoadPhase(server, mid, before);
    } else if id !in RowsIn(mid, table) && table in mid {
      var l :| 0 <= l < |before| && before[l].table == table;
      LoadOf(server, mid, before, l);
      MentionedInImage(server, table, loads[l].rows, id);
      var m :| 0 <= m < |loads[l].rows| && loads[l].rows[m].id == id;
      assert loads[l].table == table;
    }
  }

  lemma CleanHasNoCollision(server: Server, db: Database, deletes: seq<DeleteStep>, loads: seq<Load>)
    requires NoOrphans(server, db) && WellFormed(deletes, loads) && Clean(server, db, deletes, loads)
    requires forall k | 0 <= k < |loads| :: loads[k].table in db
    ensures NoCollision(server, db, deletes, loads)
  {
    CleanResult(server, db, deletes, loads);
    forall k, n | 0 <= k < |loads| && 0 <= n < |loads[k].rows|
      ensures loads[k].rows[n].id !in RowsIn(Survivors(server, db, deletes), loads[k].table)
    {
      ImageAt(server, loads[k].table, loads[k].rows, n);
    }
  }

  lemma OnTheWayMeansResolved(server: Server, db: Database, deletes: seq<DeleteStep>, loads: seq<Load>)
    requires forall fk | fk in server.foreignKeys :: ResolvedOnTheWay(server, db, deletes, loads, fk)
    ensures Resolved(server, db, deletes, loads)
  {
    forall fk, k, n | RowRefers(server, db, loads, fk, k, n)
      ensures || Parent(server, loads, fk, k, n) in RowsIn(Survivors(server, db, deletes), fk.parent)
              || ComesBack(db, loads, fk.parent, Parent(server, loads, fk, k, n))
    {
      assert ResolvedOnTheWay(server, db, deletes, loads, fk);
    }
  }

  lemma FittingKeyResolves(server: Server, db: Database, deletes: seq<DeleteStep>, loads: seq<Load>, late: set<ForeignKey>, fk: ForeignKey)
    requires OrderFits(server, deletes, loads, late) && fk in server.foreignKeys && fk !in late
    requires Resolved(server, db, deletes, loads)
    ensures ResolvedOnTheWay(server, db, deletes, loads, fk)
  {
    forall k, n | RowRefers(server, db, loads, fk, k, n)
      ensures || Parent(server, loads, fk, k, n) in RowsIn(Survivors(server, db, deletes), fk.parent)
              || WrittenBy(db, loads, fk.parent, Parent(server, loads, fk, k, n), k, n)
    {
      if Parent(server, loads, fk, k, n) !in RowsIn(Survivors(server, db, deletes), fk.parent) {
        assert ComesBack(db, loads, fk.parent, Parent(server, loads, fk, k, n));
        var l, m :| 0 <= l < |loads| && 0 <= m < |loads[l].rows| && loads[l].table == fk.parent
                    && loads[l].rows[m].id == Parent(server, loads, fk, k, n);
        assert l < k;
      }
    }
  }

  // ---------- the main result ----------

  lemma CleanIsReady(server: Server, db: Database, deletes: seq<DeleteStep>, loads: seq<Load>)
    requires Closed(server, db) && WellFormed(deletes, loads) && Clean(server, db, deletes, loads)
    requires forall k | 0 <= k < |loads| :: loads[k].table in db
    ensures Ready(server, db, deletes, loads)
    ensures forall fk | fk in server.foreignKeys :: InOrder(server, db, deletes, loads, fk)
  {
    ClosedHasNoOrphans(server, db);
    CleanIsWritable(server, db, deletes, loads);
    CleanHasNoCollision(server, db, deletes, loads);
    forall fk | fk in server.foreignKeys ensures InOrder(server, db, deletes, loads, fk) {
      CleanDeletesHold(server, db, deletes, fk);
      CleanIsResolved(server, db, deletes, loads, fk);
    }
    OnTheWayMeansNoStray(server, db, deletes);
    OnTheWayMeansResolved(server, db, deletes, loads);
  }

  lemma ReadyIsClean(server: Server, db: Database, deletes: seq<DeleteStep>, loads: seq<Load>)
    requires Closed(server, db) && WellFormed(deletes, loads) && Ready(server, db, deletes, loads)
    requires forall fk | fk in server.foreignKeys :: InOrder(server, db, deletes, loads, fk)
    ensures Clean(server, db, deletes, loads)
  {
    var mid := Survivors(server, db, deletes);
    assert deletes[..|deletes|] == deletes && loads[..|loads|] == loads;
    DeletesGoThrough(server, db, deletes);
    DeletesKeepClosed(server, db, deletes);
    KeysKept(server, db, deletes);
    forall fk, k, n | RowRefers(server, db, loads, fk, k, n)
      ensures || Parent(server, loads, fk, k, n) in RowsIn(mid, fk.parent)
              || WrittenBy(db, loads, fk.parent, Parent(server, loads, fk, k, n), k, n)
    {
      assert InOrder(server, db, deletes, loads, fk);
    }
    assert ReadyToLoad(server, db, mid, loads);
    ReadyLoadsGoThrough(server, db, mid, loads, |loads|);
  }

  /**
   The restore goes through without a refused statement exactly when the target is ready for it and no
   late key, one that the table orders do not respect, is needed out of order. With `late` empty that is
   readiness alone.
   */
  lemma CleanExactlyWhenReady(server: Server, db: Database, deletes: seq<DeleteStep>, loads: seq<Load>, late: set<ForeignKey>)
    requires Closed(server, db) && WellFormed(deletes, loads) && OrderFits(server, deletes, loads, late)
    requires forall k | 0 <= k < |loads| :: loads[k].table in db
    ensures Clean(server, db, deletes, loads) <==>
            && Ready(server, db, deletes, loads)
            && forall fk | fk in late && fk in server.foreignKeys :: InOrder(server, db, deletes, loads, fk)
  {
    if Clean(server, db, deletes, loads) {
      CleanIsReady(server, db, deletes, loads);
    }
    if && Ready(server, db, deletes, loads)
       && forall fk | fk in late && fk in server.foreignKeys :: InOrder(server, db, deletes, loads, fk)
    {
      forall fk | fk in server.foreignKeys ensures InOrder(server, db, deletes, loads, fk) {
        if fk !in late {
          FittingKeyHolds(server, db, deletes, loads, late, fk);
          FittingKeyResolves(server, db, deletes, loads, late, fk);
        }
      }
      ReadyIsClean(server, db, deletes, loads);
    }
  }
}
