/**
 What the insert phase of a restore program does, for any list of loads: inserting goes through only
 onto free ids, update-or-insert merges each row once, and no other table changes.
 */
module RestoreTheory {
  import opened Prelude
  import opened Relational
  import opened DeleteTheory

  ghost predicate DistinctDeletes(steps: seq<DeleteStep>) {
    forall i, j | 0 <= i < j < |steps| :: steps[i].table != steps[j].table
  }

  ghost predicate DistinctLoads(loads: seq<Load>) {
    forall i, j | 0 <= i < j < |loads| :: loads[i].table != loads[j].table
  }

  ghost predicate DistinctIds(rows: seq<Record>) {
    forall i, j | 0 <= i < j < |rows| :: rows[i].id != rows[j].id
  }

  ghost predicate DeletesFrom(steps: seq<DeleteStep>, table: Table) {
    exists i :: 0 <= i < |steps| && steps[i].table == table
  }

  ghost predicate LoadsInto(loads: seq<Load>, table: Table) {
    exists i :: 0 <= i < |loads| && loads[i].table == table
  }

  ghost predicate UpsertsInto(loads: seq<Load>, table: Table) {
    exists i :: 0 <= i < |loads| && loads[i].table == table && loads[i].mode.Upsert?
  }

  // ---------- insert phase ----------

  /** The rows a recordset turns into when it is inserted. */
  function Image(server: Server, table: Table, rows: seq<Record>): Rows {
    if rows == [] then map[]
    else
      var n := |rows| - 1;
      Image(server, table, rows[..n])[rows[n].id := Stored(server, table, rows[n].cells)]
  }

  lemma {:induction false} ImageAt(server: Server, table: Table, rows: seq<Record>, i: nat)
    requires DistinctIds(rows) && i < |rows|
    ensures rows[i].id in Image(server, table, rows)
    ensures Image(server, table, rows)[rows[i].id] == Stored(server, table, rows[i].cells)
  {
    var n := |rows| - 1;
    if i < n {
      ImageAt(server, table, rows[..n], i);
    }
  }

  lemma {:induction false} ImageKeys(server: Server, table: Table, rows: seq<Record>)
    ensures Image(server, table, rows).Keys == set i | 0 <= i < |rows| :: rows[i].id
  {
    if rows != [] {
      ImageKeys(server, table, rows[..|rows| - 1]);
    }
  }

  lemma StoredIgnoresComputed(server: Server, table: Table, cells: Cells)
    ensures Stored(server, table, cells - server.computed(table)) == Stored(server, table, cells)
    ensures Stored(server, table, Stored(server, table, cells)) == Stored(server, table, cells)
  {
    assert cells - server.computed(table) - server.computed(table) == cells - server.computed(table);
    assert Stored(server, table, cells) - server.computed(table) == cells - server.computed(table);
  }

  lemma InsertedRow(server: Server, db: Database, table: Table, row: Record, mode: Mode)
    requires table in db && !mode.Upsert? && WriteRow(server, db, table, row, mode).Some?
    ensures row.id !in db[table]
    ensures WriteRow(server, db, table, row, mode).value ==
            db[table := db[table][row.id := Stored(server, table, row.cells)]]
  {
    StoredIgnoresComputed(server, table, row.cells);
  }

  lemma UpsertedRow(server: Server, db: Database, table: Table, row: Record)
    requires table in db && WriteRow(server, db, table, row, Upsert).Some?
    ensures row.cells.Keys * server.computed(table) == {}
    ensures WriteRow(server, db, table, row, Upsert).value ==
            db[table := db[table][row.id := Merged(server, table, db[table], row)]]
  {
  }

  lemma AddOne(db: Database, table: Table, image: Rows, id: Key, cells: Cells)
    requires table in db
    ensures var mid := db[table := db[table] + image];
            mid[table := mid[table][id := cells]] == db[table := db[table] + image[id := cells]]
  {
    assert (db[table] + image)[id := cells] == db[table] + image[id := cells];
  }

  /** Inserting goes through only onto free ids, and then adds exactly the image of the recordset. */
  lemma {:induction false} InsertedRows(server: Server, db: Database, table: Table, rows: seq<Record>, mode: Mode)
    requires table in db && !mode.Upsert?
    requires WriteRows(server, db, table, rows, mode).Some?
    ensures WriteRows(server, db, table, rows, mode).value == db[table := db[table] + Image(server, table, rows)]
    ensures Image(server, table, rows).Keys !! db[table].Keys
  {
    if rows == [] {
      assert db[table] + map[] == db[table];
    } else {
      var n := |rows| - 1;
      InsertedRows(server, db, table, rows[..n], mode);
      InsertedRow(server, WriteRows(server, db, table, rows[..n], mode).value, table, rows[n], mode);
      AddOne(db, table, Image(server, table, rows[..n]), rows[n].id, Stored(server, table, rows[n].cells));
    }
  }

  /** The cells update-or-insert leaves in a backed-up row. */
  function Merged(server: Server, table: Table, old_: Rows, row: Record): Cells {
    Stored(server, table, if row.id in old_ then old_[row.id] + row.cells else row.cells)
  }

  /** What update-or-insert makes of a table. */
  function Upserted(server: Server, table: Table, old_: Rows, rows: seq<Record>): Rows {
    if rows == [] then old_
    else
      var n := |rows| - 1;
      var mid := Upserted(server, table, old_, rows[..n]);
      mid[rows[n].id := Merged(server, table, mid, rows[n])]
  }

  lemma {:induction false} UpsertedRows(server: Server, db: Database, table: Table, rows: seq<Record>)
    requires table in db && WriteRows(server, db, table, rows, Upsert).Some?
    ensures WriteRows(server, db, table, rows, Upsert).value ==
            db[table := Upserted(server, table, db[table], rows)]
    ensures forall row | row in rows :: row.cells.Keys * server.computed(table) == {}
  {
    if rows != [] {
      var n := |rows| - 1;
      UpsertedRows(server, db, table, rows[..n]);
      var mid := WriteRows(server, db, table, rows[..n], Upsert).value;
      UpsertedRow(server, mid, table, rows[n]);
      Overwrite(db, table, mid[table], Upserted(server, table, db[table], rows));
      assert rows == rows[..n] + [rows[n]];
    }
  }

  lemma Overwrite(db: Database, table: Table, first: Rows, second: Rows)
    ensures db[table := first][table := second] == db[table := second]
  {
  }

  ghost predicate Mentions(rows: seq<Record>, id: Key) {
    exists i :: 0 <= i < |rows| && rows[i].id == id
  }

  lemma {:induction false} UpsertedKeys(server: Server, table: Table, old_: Rows, rows: seq<Record>)
    ensures forall id :: id in Upserted(server, table, old_, rows) <==> id in old_ || Mentions(rows, id)
  {
    if rows != [] {
      var n := |rows| - 1;
      UpsertedKeys(server, table, old_, rows[..n]);
      assert rows == rows[..n] + [rows[n]];
      forall id ensures Mentions(rows, id) <==> Mentions(rows[..n], id) || id == rows[n].id {
        if i :| 0 <= i < n && rows[i].id == id { assert rows[..n][i].id == id; }
      }
    }
  }

  /** Row by row: every other row is untouched, a backed-up row is merged once. */
  lemma UpsertedAt(server: Server, table: Table, old_: Rows, rows: seq<Record>)
    requires DistinctIds(rows)
    ensures Upserted(server, table, old_, rows).Keys >= old_.Keys
    ensures forall id | id in old_ && !Mentions(rows, id) :: Upserted(server, table, old_, rows)[id] == old_[id]
    ensures forall i | 0 <= i < |rows| ::
              && rows[i].id in Upserted(server, table, old_, rows)
              && Upserted(server, table, old_, rows)[rows[i].id] == Merged(server, table, old_, rows[i])
  {
    UpsertedKeys(server, table, old_, rows);
    forall id | id in old_ && !Mentions(rows, id) ensures Upserted(server, table, old_, rows)[id] == old_[id] {
      UpsertedElsewhere(server, table, old_, rows, id);
    }
    forall i | 0 <= i < |rows|
      ensures rows[i].id in Upserted(server, table, old_, rows)
      ensures Upserted(server, table, old_, rows)[rows[i].id] == Merged(server, table, old_, rows[i])
    {
      UpsertedHere(server, table, old_, rows, i);
    }
  }

  lemma {:induction false} UpsertedElsewhere(server: Server, table: Table, old_: Rows, rows: seq<Record>, id: Key)
    requires !Mentions(rows, id)
    ensures id in Upserted(server, table, old_, rows) <==> id in old_
    ensures id in old_ ==> Upserted(server, table, old_, rows)[id] == old_[id]
  {
    if rows != [] {
      var n := |rows| - 1;
      assert forall i | 0 <= i < n :: rows[..n][i] == rows[i];
      assert rows[n].id != id;
      UpsertedElsewhere(server, table, old_, rows[..n], id);
    }
  }

  lemma {:induction false} UpsertedHere(server: Server, table: Table, old_: Rows, rows: seq<Record>, i: nat)
    requires DistinctIds(rows) && i < |rows|
    ensures rows[i].id in Upserted(server, table, old_, rows)
    ensures Upserted(server, table, old_, rows)[rows[i].id] == Merged(server, table, old_, rows[i])
  {
    var n := |rows| - 1;
    if i < n {
      assert rows[..n][i] == rows[i] && rows[i].id != rows[n].id;
      UpsertedHere(server, table, old_, rows[..n], i);
    } else {
      assert forall j | 0 <= j < n :: rows[..n][j].id != rows[n].id;
      UpsertedElsewhere(server, table, old_, rows[..n], rows[n].id);
      SameMerge(server, table, old_, Upserted(server, table, old_, rows[..n]), rows[n]);
    }
  }

  /** Merging looks only at the row's old cells. */
  lemma SameMerge(server: Server, table: Table, a: Rows, b: Rows, row: Record)
    requires row.id in a <==> row.id in b
    requires row.id in a ==> a[row.id] == b[row.id]
    ensures Merged(server, table, a, row) == Merged(server, table, b, row)
  {
  }

  /** One table after its load, given the table before. */
  ghost predicate LoadedAs(server: Server, load: Load, before: Rows, after: Rows) {
    if load.mode.Upsert? then
      && after == Upserted(server, load.table, before, load.rows)
      && (forall row | row in load.rows :: row.cells.Keys * server.computed(load.table) == {})
    else
      && after == before + Image(server, load.table, load.rows)
      && Image(server, load.table, load.rows).Keys !! before.Keys
  }

  lemma LoadedTable(server: Server, db: Database, load: Load)
    requires RunLoad(server, db, load).Some?
    ensures forall table | table != load.table ::
              RowsIn(RunLoad(server, db, load).value, table) == RowsIn(db, table)
    ensures load.table in db ==> LoadedAs(server, load, db[load.table], RunLoad(server, db, load).value[load.table])
  {
    if load.table in db {
      if load.rows == [] {
        assert db[load.table] + map[] == db[load.table];
      } else if load.mode.Upsert? {
        UpsertedRows(server, db, load.table, load.rows);
      } else {
        InsertedRows(server, db, load.table, load.rows, load.mode);
      }
    }
  }

  /** Table by table, what the insert phase leaves. */
  lemma {:induction false} LoadPhase(server: Server, db: Database, loads: seq<Load>)
    requires DistinctLoads(loads) && RunLoads(server, db, loads).Some?
    ensures var after := RunLoads(server, db, loads).value;
            && (forall table :: !LoadsInto(loads, table) ==> RowsIn(after, table) == RowsIn(db, table))
            && (forall i | 0 <= i < |loads| && loads[i].table in db ::
                  LoadedAs(server, loads[i], db[loads[i].table], after[loads[i].table]))
  {
    if loads != [] {
      var n := |loads| - 1;
      var before := loads[..n];
      var last := loads[n];
      LoadPhase(server, db, before);
      var mid := RunLoads(server, db, before).value;
      var after := RunLoads(server, db, loads).value;
      assert forall i | 0 <= i < n :: before[i] == loads[i];
      assert !LoadsInto(before, last.table);
      assert RowsIn(mid, last.table) == RowsIn(db, last.table);
      LoadedTable(server, mid, last);
      assert forall table | !LoadsInto(loads, table) :: !LoadsInto(before, table) && table != last.table;
      forall i | 0 <= i < n && loads[i].table in db
        ensures after[loads[i].table] == mid[loads[i].table]
      {
        assert RowsIn(after, loads[i].table) == RowsIn(mid, loads[i].table);
      }
    }
  }

  // ---------- tables cut in two ----------

  lemma Split(rows: Rows, where: Where)
    ensures Unselected(rows, where) + Selected(rows, where) == rows
  {
  }

  lemma NothingSelected(rows: Rows, where: Where)
    requires forall id, cells :: !Matches(where, id, cells)
    ensures Unselected(rows, where) == rows && Selected(rows, where) == map[]
  {
  }

  lemma SelectedOfUnion(a: Rows, b: Rows, where: Where)
    requires forall id | id in a :: !Matches(where, id, a[id])
    requires forall id | id in b :: Matches(where, id, b[id]) && id !in a
    ensures Selected(a + b, where) == b && Unselected(a + b, where) == a
  {
  }

  /** A table made of rows that do not match, rows left behind that do, and reinserted rows that do. */
  lemma PartsOf(rows: Rows, where: Where, left: Rows, slice: Rows)
    requires left == map[] || left == Selected(rows, where)
    requires forall id | id in slice :: Matches(where, id, slice[id])
    requires (Unselected(rows, where) + left).Keys !! slice.Keys
    ensures var after := Unselected(rows, where) + left + slice;
            && Unselected(after, where) == Unselected(rows, where)
            && Selected(after, where) == left + slice
            && (Selected(after, where) == slice <==> left == map[])
  {
    var others := Unselected(rows, where);
    assert others + left + slice == others + (left + slice);
    SelectedOfUnion(others, left + slice, where);
    if left == map[] {
      assert left + slice == slice;
    } else {
      var id :| id in left;
      assert id in left + slice && id !in slice;
    }
  }

  // ---------- after the insert phase ----------

  /** What survives the delete phase is still there, unchanged, after the insert phase. */
  lemma LoadsKeepRows(server: Server, db: Database, loads: seq<Load>, table: Table)
    requires DistinctLoads(loads) && RunLoads(server, db, loads).Some? && !UpsertsInto(loads, table)
    ensures Within(RowsIn(db, table), RowsIn(RunLoads(server, db, loads).value, table))
  {
    LoadPhase(server, db, loads);
    if LoadsInto(loads, table) && table in db {
      var i :| 0 <= i < |loads| && loads[i].table == table;
      assert LoadedAs(server, loads[i], db[table], RunLoads(server, db, loads).value[table]);
    }
  }

  lemma LoadOf(server: Server, db: Database, loads: seq<Load>, k: nat)
    requires DistinctLoads(loads) && RunLoads(server, db, loads).Some?
    requires k < |loads| && loads[k].table in db
    ensures LoadedAs(server, loads[k], db[loads[k].table], RunLoads(server, db, loads).value[loads[k].table])
  {
    LoadPhase(server, db, loads);
  }

  // ---------- parts of an insert phase ----------

  lemma {:induction false} LoadsReachPrefix(server: Server, db: Database, loads: seq<Load>, k: nat)
    requires k <= |loads| && RunLoads(server, db, loads).Some?
    ensures RunLoads(server, db, loads[..k]).Some?
  {
    if k == |loads| {
      assert loads[..k] == loads;
    } else {
      var n := |loads| - 1;
      LoadsReachPrefix(server, db, loads[..n], k);
      assert loads[..n][..k] == loads[..k];
    }
  }

  lemma {:induction false} RowsReachPrefix(server: Server, db: Database, table: Table, rows: seq<Record>, mode: Mode, n: nat)
    requires table in db && n <= |rows| && WriteRows(server, db, table, rows, mode).Some?
    ensures WriteRows(server, db, table, rows[..n], mode).Some?
  {
    if n == |rows| {
      assert rows[..n] == rows;
    } else {
      var m := |rows| - 1;
      RowsReachPrefix(server, db, table, rows[..m], mode, n);
      assert rows[..m][..n] == rows[..n];
    }
  }
}
