/** Restoring a passport request onto the very database it was backed up from. */
module PassportRoundTrip {
  import opened Prelude
  import opened Relational
  import opened DeleteTheory
  import opened RestoreTheory
  import opened Connections
  import opened PassportBackup

  /**
   A restore that commits onto the unchanged database gives that database back, although each of its
   deletes may have been refused and passed over.
   */
  lemma RestoringUnchanged(server: Server, db0: Database, request: Key, backup: Snapshot)
    requires IsBackup(db0, request, backup) && Consistent(server, db0)
    requires NoCascadesIn(server) && Closed(server, db0)
    requires RestoreOnto(server, db0, backup).Some?
    ensures RestoreOnto(server, db0, backup).value == db0
  {
    var after := RestoreOnto(server, db0, backup).value;
    KeysKept(server, db0, DeletePlan(backup));
    forall table | table in db0 ensures RowsIn(after, table) == db0[table] {
      if DeletesFrom(DeletePlan(backup), table) {
        DeletedComesBack(server, db0, request, backup, table);
      } else if table == Passports {
        PassportsStay(server, db0, request, backup);
      } else {
        UndeletedComesBack(server, db0, request, backup, table);
      }
    }
    assert after.Keys == db0.Keys;
  }

  lemma DeletedComesBack(server: Server, db0: Database, request: Key, backup: Snapshot, table: Table)
    requires IsBackup(db0, request, backup) && Consistent(server, db0)
    requires NoCascadesIn(server) && Closed(server, db0)
    requires RestoreOnto(server, db0, backup).Some? && table in db0 && DeletesFrom(DeletePlan(backup), table)
    ensures RowsIn(RestoreOnto(server, db0, backup).value, table) == db0[table]
  {
    var plan := DeletePlan(backup);
    DeletePlanShape(backup);
    var i :| 0 <= i < |plan| && plan[i].table == table;
    ReinsertedTable(server, db0, backup, i);
    ImageOfBackup(server, db0, table, ReadWhere(backup, table), RowsOf(backup, table));
    PutBack(db0[table], ReadWhere(backup, table), Accepted(server, db0, plan, i));
  }

  /** Rows a refused delete left behind cannot be inserted again, so there were none. */
  lemma PutBack(rows: Rows, where: Where, gone: bool)
    requires (if gone then Unselected(rows, where) else rows).Keys !! Selected(rows, where).Keys
    ensures (if gone then Unselected(rows, where) else rows) + Selected(rows, where) == rows
  {
    Split(rows, where);
  }

  lemma PassportsStay(server: Server, db0: Database, request: Key, backup: Snapshot)
    requires IsBackup(db0, request, backup) && Consistent(server, db0)
    requires NoCascadesIn(server) && Closed(server, db0)
    requires RestoreOnto(server, db0, backup).Some? && Passports in db0
    ensures RowsIn(RestoreOnto(server, db0, backup).value, Passports) == db0[Passports]
  {
    var before, rows := db0[Passports], RowsOf(backup, Passports);
    assert Lists(rows, Selected(RowsIn(db0, Passports), ReadWhere(backup, Passports)));
    PassportTable(server, db0, backup);
    MergingTheSame(server, before, rows);
  }

  /** Update-or-insert of rows with the values they have changes nothing. */
  lemma MergingTheSame(server: Server, before: Rows, rows: seq<Record>)
    requires DistinctIds(rows) && forall row | row in rows :: row.id in before && before[row.id] == row.cells
    requires forall id | id in before :: before[id] == Stored(server, Passports, before[id])
    ensures Upserted(server, Passports, before, rows) == before
  {
    var after := Upserted(server, Passports, before, rows);
    UpsertedKeys(server, Passports, before, rows);
    UpsertedAt(server, Passports, before, rows);
    forall id | id in after ensures id in before {
      if Mentions(rows, id) {
        var i :| 0 <= i < |rows| && rows[i].id == id;
        assert rows[i] in rows;
      }
    }
    forall id | id in before ensures id in after && after[id] == before[id] {
      if Mentions(rows, id) {
        var i :| 0 <= i < |rows| && rows[i].id == id;
        assert rows[i] in rows;
        MergingOne(server, before, rows[i]);
      }
    }
  }

  lemma MergingOne(server: Server, before: Rows, row: Record)
    requires row.id in before && before[row.id] == row.cells && before[row.id] == Stored(server, Passports, before[row.id])
    ensures Merged(server, Passports, before, row) == before[row.id]
  {
    assert before[row.id] + row.cells == before[row.id];
  }

  lemma UndeletedComesBack(server: Server, db0: Database, request: Key, backup: Snapshot, table: Table)
    requires IsBackup(db0, request, backup) && RestoreOnto(server, db0, backup).Some?
    requires NoCascadesIn(server) && Closed(server, db0)
    requires table in db0 && table != Passports && !DeletesFrom(DeletePlan(backup), table)
    ensures RowsIn(RestoreOnto(server, db0, backup).value, table) == db0[table]
  {
    UndeletedStays(server, db0, backup, table);
    LoadPlanShape(backup);
    if Managed(table) {
      OnlyFilesAreSkipped(db0, request, backup, table);
      NothingIsLoaded(server, RunDeletes(server, db0, DeletePlan(backup)).value, LoadPlan(backup), LoadRank(table));
    } else {
      LoadPhase(server, RunDeletes(server, db0, DeletePlan(backup)).value, LoadPlan(backup));
    }
  }

  lemma NothingIsLoaded(server: Server, db: Database, loads: seq<Load>, k: nat)
    requires DistinctLoads(loads) && RunLoads(server, db, loads).Some?
    requires k < |loads| && loads[k].table in db && loads[k].rows == [] && !loads[k].mode.Upsert?
    ensures RunLoads(server, db, loads).value[loads[k].table] == db[loads[k].table]
  {
    LoadOf(server, db, loads, k);
    assert db[loads[k].table] + map[] == db[loads[k].table];
  }

  /** The one table of the backup that may not be deleted from is the files', when no file is attached. */
  lemma OnlyFilesAreSkipped(db0: Database, request: Key, backup: Snapshot, table: Table)
    requires IsBackup(db0, request, backup) && Managed(table) && table != Passports
    requires !DeletesFrom(DeletePlan(backup), table)
    ensures table == Files && RowsOf(backup, table) == []
  {
    PlanReaches(backup, table);
    NoNamesNoFiles(db0, request, backup);
  }

  lemma PlanReaches(backup: Snapshot, table: Table)
    ensures OfRequest(table) || OfProcess(table) ==> DeletesFrom(DeletePlan(backup), table)
    ensures RowsOf(backup, FileRelations) != [] ==> DeletesFrom(DeletePlan(backup), Files)
  {
    var plan := DeletePlan(backup);
    if OfRequest(table) || OfProcess(table) {
      assert OrderedSteps(backup)[DeleteRank(table)].table == table;
      assert plan[DeleteRank(table)].table == table;
    }
    if RowsOf(backup, FileRelations) != [] {
      assert plan[9].table == Files;
    }
  }

  lemma NoNamesNoFiles(db0: Database, request: Key, backup: Snapshot)
    requires IsBackup(db0, request, backup)
    ensures RowsOf(backup, FileRelations) == [] ==> RowsOf(backup, Files) == []
  {
    var rows, where := RowsOf(backup, Files), ReadWhere(backup, Files);
    assert Lists(rows, Selected(RowsIn(db0, Files), where));
    if RowsOf(backup, FileRelations) == [] {
      assert where == IdIn({});
      NothingSelected(RowsIn(db0, Files), where);
      ListsNothing(rows);
    }
  }

  lemma ListsNothing(rows: seq<Record>)
    requires Lists(rows, map[])
    ensures rows == []
  {
    ListsIds(rows, map[]);
    RowsHaveIds(rows);
  }

  lemma RowsHaveIds(rows: seq<Record>)
    ensures rows != [] ==> Ids(rows) != {}
  {
    if rows != [] {
      assert rows[0].id in Ids(rows);
    }
  }
}
