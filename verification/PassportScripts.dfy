/** The two passport scripts as programs. */
module PassportScripts {
  import opened Prelude
  import opened Relational
  import opened RestoreTheory
  import opened Connections
  import opened PassportBackup
  import opened PassportMembership

  /** What is read of a table while the backup is being filled. */
  ghost predicate ReadAs(conn: Connection, data: map<Table, seq<Record>>, table: Table, where: Where)
    reads conn
  {
    Lists(Found(data, table), Selected(RowsIn(conn.tables, table), where))
  }

  method BackupPassportRequest(conn: Connection, request: Key) returns (result: Option<Snapshot>)
    ensures result.Some? ==> IsBackup(conn.tables, request, result.value)
    ensures result.None? <==>
              || request !in RowsIn(conn.tables, PassportBorrowRequests)
              || (Files !in conn.tables && exists relation :: OfRequestOrVoucher(conn.tables, request, FileRelations, relation, ObjectId))
              || (Passports !in conn.tables && exists id :: NamesPassport(conn.tables, request, id))
  {
    var data := ReadRequest(conn, request);
    assert OfRequest(PassportBorrowRequests) && RequestWhere(request, PassportBorrowRequests) == IdIn({request});
    assert ReadAs(conn, data, PassportBorrowRequests, IdIn({request}));
    RowFoundExactly(Found(data, PassportBorrowRequests), RowsIn(conn.tables, PassportBorrowRequests), request);
    if Found(data, PassportBorrowRequests) == [] {
      return None;
    }
    data := ReadProcess(conn, request, data);
    assert RowsRead(conn.tables, request, Snapshot(request, data)) by {
      forall t | OfRequest(t) || OfProcess(t) ensures ReadAs(conn, data, t, ReadWhere(Snapshot(request, data), t)) {
      }
    }
    LooksFurther(conn.tables, request, Snapshot(request, data));
    var files := ReadNamed(conn, Files, FileNames(Found(data, FileRelations)));
    if files.None? {
      return None;
    }
    var ids := PassportIds(Snapshot(request, data));
    var passports := ReadNamed(conn, Passports, ids);
    if passports.None? {
      return None;
    }
    var backup := Snapshot(request, data[Files := files.value][Passports := passports.value]);
    Completed(request, data, files.value, passports.value);
    Assembled(conn.tables, Snapshot(request, data), backup);
    result := Some(backup);
  }

  ghost predicate AsRead(db: Database, backup: Snapshot, table: Table) {
    Lists(RowsOf(backup, table), Selected(RowsIn(db, table), ReadWhere(backup, table)))
  }

  /** `after` holds the same rows as `before` but for files and passports. */
  ghost predicate Completes(before: Snapshot, after: Snapshot) {
    after.request == before.request
    && forall table | table != Files && table != Passports :: RowsOf(after, table) == RowsOf(before, table)
  }

  lemma SameCondition(before: Snapshot, after: Snapshot, table: Table)
    requires Completes(before, after) && Managed(table)
    ensures ReadWhere(after, table) ==
            if table == Files then IdIn(FileNames(RowsOf(before, FileRelations)))
            else if table == Passports then IdIn(PassportIds(before)) else ReadWhere(before, table)
  {
  }

  lemma AsReadAt(db: Database, before: Snapshot, after: Snapshot, table: Table)
    requires AsRead(db, before, table) || table == Files || table == Passports
    requires Completes(before, after) && Managed(table)
    requires Lists(RowsOf(after, Files), Selected(RowsIn(db, Files), IdIn(FileNames(RowsOf(before, FileRelations)))))
    requires Lists(RowsOf(after, Passports), Selected(RowsIn(db, Passports), IdIn(PassportIds(before))))
    ensures AsRead(db, after, table)
  {
    SameCondition(before, after, table);
  }

  lemma Assembled(db: Database, before: Snapshot, after: Snapshot)
    requires RowsRead(db, before.request, before) && Completes(before, after)
    requires Lists(RowsOf(after, Files), Selected(RowsIn(db, Files), IdIn(FileNames(RowsOf(before, FileRelations)))))
    requires Lists(RowsOf(after, Passports), Selected(RowsIn(db, Passports), IdIn(PassportIds(before))))
    ensures IsBackup(db, before.request, after)
  {
    forall table | Managed(table) ensures AsRead(db, after, table) {
      assert OfRequest(table) || OfProcess(table) || table == Files || table == Passports;
      AsReadAt(db, before, after, table);
    }
  }

  lemma RowFoundExactly(found: seq<Record>, rows: Rows, request: Key)
    requires Lists(found, Selected(rows, IdIn({request})))
    ensures found == [] <==> request !in rows
  {
    ListsIds(found, Selected(rows, IdIn({request})));
    if found == [] {
      assert request !in Ids(found);
    } else {
      assert found[0] in found;
    }
  }

  lemma Completed(request: Key, data: map<Table, seq<Record>>, files: seq<Record>, passports: seq<Record>)
    ensures var after := Snapshot(request, data[Files := files][Passports := passports]);
            Completes(Snapshot(request, data), after) && RowsOf(after, Files) == files && RowsOf(after, Passports) == passports
  {
  }

  lemma RequestTables()
    ensures forall t :: t in REQUEST_TABLES <==> OfRequest(t)
    ensures forall i, j | 0 <= i < j < |REQUEST_TABLES| :: REQUEST_TABLES[i] != REQUEST_TABLES[j]
  {
  }

  lemma ProcessTables()
    ensures forall t :: t in PROCESS_TABLES <==> OfProcess(t)
    ensures forall i, j | 0 <= i < j < |PROCESS_TABLES| :: PROCESS_TABLES[i] != PROCESS_TABLES[j]
  {
  }

  /** The tables keyed by the request; a table that does not exist is skipped. */
  method ReadRequest(conn: Connection, request: Key) returns (data: map<Table, seq<Record>>)
    ensures forall t | t in data :: OfRequest(t)
    ensures forall t | OfRequest(t) :: ReadAs(conn, data, t, RequestWhere(request, t))
  {
    RequestTables();
    data := conn.ReadTables(map[], REQUEST_TABLES, table => RequestWhere(request, table));
  }

  /** Workflow rows and attachments of the request and of the vouchers read before. */
  method ReadProcess(conn: Connection, request: Key, before: map<Table, seq<Record>>) returns (data: map<Table, seq<Record>>)
    requires forall t | t in before :: OfRequest(t)
    requires forall t | OfRequest(t) :: ReadAs(conn, before, t, RequestWhere(request, t))
    ensures forall t | t in data :: OfRequest(t) || OfProcess(t)
    ensures forall t | OfRequest(t) || OfProcess(t) :: ReadAs(conn, data, t, ReadWhere(Snapshot(request, data), t))
  {
    var vouchers := Ids(Found(before, PassportVouchers));
    ProcessTables();
    data := conn.ReadTables(before, PROCESS_TABLES, table => ProcessWhere(request, vouchers, table));
    assert RowsOf(Snapshot(request, data), PassportVouchers) == Found(before, PassportVouchers);
    forall t | OfRequest(t) || OfProcess(t) ensures ReadAs(conn, data, t, ReadWhere(Snapshot(request, data), t)) {
      if OfRequest(t) {
        assert ReadAs(conn, before, t, RequestWhere(request, t));
      }
    }
  }

  /** Rows by id, skipped when there are none to look for; a missing table ends the backup. */
  method ReadNamed(conn: Connection, table: Table, ids: set<Key>) returns (rows: Option<seq<Record>>)
    ensures rows.Some? ==> Lists(rows.value, Selected(RowsIn(conn.tables, table), IdIn(ids)))
    ensures rows.None? <==> table !in conn.tables && ids != {}
  {
    if ids == {} {
      NothingSelected(RowsIn(conn.tables, table), IdIn(ids));
      rows := Some([]);
    } else if table !in conn.tables {
      rows := None;
    } else {
      var found := conn.Select(table, IdIn(ids));
      rows := Some(found);
    }
  }

  /** The restore: delete what the server lets go, put everything back, commit or roll back. */
  method RestorePassportRequest(conn: Connection, backup: Snapshot) returns (committed: bool)
    modifies conn
    ensures committed <==> RestoreOnto(conn.server, old(conn.tables), backup).Some?
    ensures conn.tables == AfterRestore(conn.server, old(conn.tables), DeletePlan(backup), LoadPlan(backup))
  {
    var before := conn.tables;
    ghost var plan := DeletePlan(backup);
    ghost var done: seq<DeleteStep> := [];
    committed, done := conn.DeleteAll(before, done, OrderedSteps(backup), plan);
    if committed {
      committed, done := conn.DeleteAll(before, done, FileSteps(backup), plan);
      assert done == plan;
    }
    if committed {
      committed := InsertAll(conn, backup);
    }
    if !committed {
      conn.tables := before;
    }
  }

  method InsertAll(conn: Connection, backup: Snapshot) returns (ok: bool)
    modifies conn`tables
    ensures ok <==> RunLoads(conn.server, old(conn.tables), LoadPlan(backup)).Some?
    ensures ok ==> RunLoads(conn.server, old(conn.tables), LoadPlan(backup)) == Some(conn.tables)
  {
    ghost var start := conn.tables;
    ghost var loads := LoadPlan(backup);
    var k := 0;
    ok := true;
    while k < |INSERT_ORDER|
      invariant 0 <= k <= |INSERT_ORDER|
      invariant RunLoads(conn.server, start, loads[..k]) == Some(conn.tables)
    {
      var load := LoadOfTable(backup, INSERT_ORDER[k]);
      assert loads[..k + 1] == loads[..k] + [load];
      ok := conn.WriteAll(start, loads[..k], load);
      if !ok {
        LoadsStop(conn.server, start, loads, k + 1);
        return;
      }
      k := k + 1;
    }
    assert loads[..k] == loads;
  }
}
