/**
 Which rows belong to a passport request, told from the columns of the tables alone: those the backup
 lists, and those a restore brings back.
 */
module PassportMembership {
  import opened Prelude
  import opened Relational
  import opened DeleteTheory
  import opened RestoreTheory
  import opened Connections
  import opened PassportBackup

  // ---------- membership ----------

  /** The row has in this column the request or one of its vouchers. */
  ghost predicate OfRequestOrVoucher(db: Database, request: Key, table: Table, id: Key, column: Column) {
    || Has(db, table, id, column, request)
    || exists voucher :: Has(db, PassportVouchers, voucher, RequestId, request) && Has(db, table, id, column, voucher)
  }

  /** The file is named by a file relation; a relation without one names the identifier "null". */
  ghost predicate NamesFile(db: Database, relation: Key, id: Key) {
    || Has(db, FileRelations, relation, FileId, id)
    || (id == "null" && FileRelations in db && relation in db[FileRelations]
        && (FileId !in db[FileRelations][relation] || db[FileRelations][relation][FileId] == Null))
  }

  /** The row of the table under the id is there and belongs to the request. */
  ghost predicate BelongsTo(db: Database, request: Key, table: Table, id: Key) {
    && table in db && id in db[table]
    && match table
       case PassportBorrowRequests => id == request
       case PassportDelegationItems | PassportHistories | PassportVouchers | PassportVoucherItems => Has(db, table, id, RequestId, request)
       case WorkItems | Audit | DocumentComments => OfRequestOrVoucher(db, request, table, id, DocumentId)
       case FileRelations => OfRequestOrVoucher(db, request, table, id, ObjectId)
       case Files =>
         exists relation :: OfRequestOrVoucher(db, request, FileRelations, relation, ObjectId) && NamesFile(db, relation, id)
       case Passports =>
         NamesPassport(db, request, id)
       case _ => false
  }

  /** The request, one of its delegation items or one of its voucher items names the passport. */
  ghost predicate NamesPassport(db: Database, request: Key, id: Key) {
    || Has(db, PassportBorrowRequests, request, PassportId, id)
    || (exists item :: Has(db, PassportDelegationItems, item, RequestId, request) && Has(db, PassportDelegationItems, item, PassportId, id))
    || (exists item :: Has(db, PassportVoucherItems, item, RequestId, request) && Has(db, PassportVoucherItems, item, PassportId, id))
  }

  /** The tables that hold rows of requests. */
  predicate HoldsRequests(table: Table) {
    table in {PassportBorrowRequests, PassportDelegationItems, PassportHistories, PassportVouchers, PassportVoucherItems,
              WorkItems, Audit, DocumentComments, FileRelations, Files, Passports}
  }

  /** Those of them the restore deletes from and writes back by request and vouchers. */
  predicate PutBack(table: Table) {
    HoldsRequests(table) && table != Files && table != Passports
  }

  // ---------- what the backup lists ----------

  /** The backup file lists the row under this table, with these cells. */
  ghost predicate Listed(backup: Snapshot, table: Table, id: Key, cells: Cells) {
    table in backup.tables && Record(id, cells) in backup.tables[table]
  }

  /** What the backup script has read before it turns to files and passports. */
  ghost predicate RowsRead(db: Database, request: Key, backup: Snapshot) {
    && backup.request == request
    && forall table | OfRequest(table) || OfProcess(table) ::
         Lists(RowsOf(backup, table), Selected(RowsIn(db, table), ReadWhere(backup, table)))
  }

  /** The rows listed are those the reading condition selects. */
  lemma ListedIsSelected(db: Database, backup: Snapshot, table: Table, id: Key, cells: Cells)
    requires Lists(RowsOf(backup, table), Selected(RowsIn(db, table), ReadWhere(backup, table)))
    ensures Listed(backup, table, id, cells) <==>
              table in db && id in db[table] && db[table][id] == cells && Matches(ReadWhere(backup, table), id, cells)
    ensures table in backup.tables ==>
              forall i, j | 0 <= i < j < |backup.tables[table]| :: backup.tables[table][i].id != backup.tables[table][j].id
  {
    var rows, content := RowsOf(backup, table), Selected(RowsIn(db, table), ReadWhere(backup, table));
    assert Lists(rows, content);
    if Listed(backup, table, id, cells) {
      assert Record(id, cells) in rows;
    }
    if id in content {
      assert Record(id, content[id]) in rows;
    }
  }

  lemma OneOf(id: Key, cells: Cells, column: Column, texts: set<string>)
    ensures Matches(ColumnIn(column, texts), id, cells) <==> exists t :: t in texts && column in cells && cells[column] == Text(t)
  {
  }

  lemma VouchersListed(db: Database, request: Key, backup: Snapshot, voucher: Key)
    requires RowsRead(db, request, backup)
    ensures voucher in Ids(RowsOf(backup, PassportVouchers)) <==> Has(db, PassportVouchers, voucher, RequestId, request)
  {
    assert Lists(RowsOf(backup, PassportVouchers), Selected(RowsIn(db, PassportVouchers), ReadWhere(backup, PassportVouchers)));
    ListsIds(RowsOf(backup, PassportVouchers), Selected(RowsIn(db, PassportVouchers), ReadWhere(backup, PassportVouchers)));
    if voucher in RowsIn(db, PassportVouchers) {
      OneOf(voucher, db[PassportVouchers][voucher], RequestId, {request});
    }
  }

  lemma ProcessRead(db: Database, request: Key, backup: Snapshot, table: Table, id: Key)
    requires RowsRead(db, request, backup) && table in {WorkItems, Audit, DocumentComments, FileRelations}
    requires table in db && id in db[table]
    ensures Matches(ReadWhere(backup, table), id, db[table][id]) <==>
              OfRequestOrVoucher(db, request, table, id, if table == FileRelations then ObjectId else DocumentId)
  {
    var column := if table == FileRelations then ObjectId else DocumentId;
    var vouchers := Ids(RowsOf(backup, PassportVouchers));
    OneOf(id, db[table][id], column, {request} + vouchers);
    forall voucher ensures voucher in vouchers <==> Has(db, PassportVouchers, voucher, RequestId, request) {
      VouchersListed(db, request, backup, voucher);
    }
    if t :| t in {request} + vouchers && column in db[table][id] && db[table][id][column] == Text(t) {
      assert Has(db, table, id, column, t);
    }
    if voucher :| Has(db, PassportVouchers, voucher, RequestId, request) && Has(db, table, id, column, voucher) {
      assert voucher in {request} + vouchers;
    }
  }

  lemma RelationsListed(db: Database, request: Key, backup: Snapshot, relation: Key, cells: Cells)
    requires RowsRead(db, request, backup)
    ensures Record(relation, cells) in RowsOf(backup, FileRelations) <==>
              OfRequestOrVoucher(db, request, FileRelations, relation, ObjectId) && db[FileRelations][relation] == cells
  {
    ListedIsSelected(db, backup, FileRelations, relation, cells);
    if FileRelations in db && relation in db[FileRelations] {
      ProcessRead(db, request, backup, FileRelations, relation);
    }
  }

  lemma FileNamesAre(db: Database, request: Key, backup: Snapshot, id: Key)
    requires RowsRead(db, request, backup)
    ensures id in FileNames(RowsOf(backup, FileRelations)) <==>
              exists relation :: OfRequestOrVoucher(db, request, FileRelations, relation, ObjectId) && NamesFile(db, relation, id)
  {
    var rows := RowsOf(backup, FileRelations);
    if id in FileNames(rows) {
      var row :| row in rows && Spliced(Cell(row.cells, FileId)) == id;
      assert row == Record(row.id, row.cells);
      RelationsListed(db, request, backup, row.id, row.cells);
      assert NamesFile(db, row.id, id);
    }
    if relation :| OfRequestOrVoucher(db, request, FileRelations, relation, ObjectId) && NamesFile(db, relation, id) {
      RelationsListed(db, request, backup, relation, db[FileRelations][relation]);
      assert Spliced(Cell(Record(relation, db[FileRelations][relation]).cells, FileId)) == id;
    }
  }

  /** The passports that listed rows of one table name. */
  lemma NamedByTable(db: Database, request: Key, backup: Snapshot, table: Table, id: Key)
    requires RowsRead(db, request, backup) && table in {PassportDelegationItems, PassportVoucherItems}
    ensures id in PassportsNamed(RowsOf(backup, table)) <==>
              exists item :: Has(db, table, item, RequestId, request) && Has(db, table, item, PassportId, id)
  {
    var rows := RowsOf(backup, table);
    if id in PassportsNamed(rows) {
      var row :| row in rows && Cell(row.cells, PassportId) == Text(id);
      assert row == Record(row.id, row.cells);
      ListedIsSelected(db, backup, table, row.id, row.cells);
      assert Has(db, table, row.id, RequestId, request) && Has(db, table, row.id, PassportId, id);
    }
    if item :| Has(db, table, item, RequestId, request) && Has(db, table, item, PassportId, id) {
      ListedIsSelected(db, backup, table, item, db[table][item]);
      assert Record(item, db[table][item]) in rows;
    }
  }

  lemma NamedByRequest(db: Database, request: Key, backup: Snapshot, id: Key)
    requires RowsRead(db, request, backup)
    ensures id in PassportsNamed(RowsOf(backup, PassportBorrowRequests)) <==> Has(db, PassportBorrowRequests, request, PassportId, id)
  {
    var rows := RowsOf(backup, PassportBorrowRequests);
    if id in PassportsNamed(rows) {
      var row :| row in rows && Cell(row.cells, PassportId) == Text(id);
      assert row == Record(row.id, row.cells);
      ListedIsSelected(db, backup, PassportBorrowRequests, row.id, row.cells);
    }
    if Has(db, PassportBorrowRequests, request, PassportId, id) {
      ListedIsSelected(db, backup, PassportBorrowRequests, request, db[PassportBorrowRequests][request]);
      assert Record(request, db[PassportBorrowRequests][request]) in rows;
    }
  }

  lemma PassportIdsAre(db: Database, request: Key, backup: Snapshot, id: Key)
    requires RowsRead(db, request, backup)
    ensures id in PassportIds(backup) <==> NamesPassport(db, request, id)
  {
    NamedByRequest(db, request, backup, id);
    NamedByTable(db, request, backup, PassportDelegationItems, id);
    NamedByTable(db, request, backup, PassportVoucherItems, id);
  }

  /** Files are looked for when there is a file relation, passports when one is named. */
  lemma LooksFurther(db: Database, request: Key, backup: Snapshot)
    requires RowsRead(db, request, backup)
    ensures FileNames(RowsOf(backup, FileRelations)) != {} <==>
              exists relation :: OfRequestOrVoucher(db, request, FileRelations, relation, ObjectId)
    ensures PassportIds(backup) != {} <==> exists id :: NamesPassport(db, request, id)
  {
    HasText(FileNames(RowsOf(backup, FileRelations)));
    HasText(PassportIds(backup));
    if relation :| OfRequestOrVoucher(db, request, FileRelations, relation, ObjectId) {
      var id := Spliced(Cell(db[FileRelations][relation], FileId));
      assert NamesFile(db, relation, id);
      FileNamesAre(db, request, backup, id);
    }
    if id :| id in FileNames(RowsOf(backup, FileRelations)) {
      FileNamesAre(db, request, backup, id);
    }
    forall id ensures id in PassportIds(backup) <==> NamesPassport(db, request, id) {
      PassportIdsAre(db, request, backup, id);
    }
  }

  lemma RequestRead(db: Database, request: Key, backup: Snapshot, table: Table, id: Key)
    requires OfRequest(table) && table in db && id in db[table] && backup.request == request
    ensures Matches(ReadWhere(backup, table), id, db[table][id]) <==> BelongsTo(db, request, table, id)
  {
    if table != PassportBorrowRequests {
      OneOf(id, db[table][id], RequestId, {request});
    }
  }

  /** The reading condition of each table selects what belongs to the request. */
  lemma ReadsWhatBelongs(db: Database, request: Key, backup: Snapshot, table: Table, id: Key)
    requires RowsRead(db, request, backup) && HoldsRequests(table) && table in db && id in db[table]
    ensures Matches(ReadWhere(backup, table), id, db[table][id]) <==> BelongsTo(db, request, table, id)
  {
    if OfRequest(table) {
      RequestRead(db, request, backup, table, id);
    } else if table == Files {
      FileNamesAre(db, request, backup, id);
    } else if table == Passports {
      PassportIdsAre(db, request, backup, id);
    } else {
      ProcessRead(db, request, backup, table, id);
    }
  }

  /** A backup lists a row exactly when it belongs to the request, once, with the cells it has. */
  lemma BackupListsTheRequest(db: Database, request: Key, backup: Snapshot, table: Table, id: Key, cells: Cells)
    requires IsBackup(db, request, backup) && HoldsRequests(table)
    ensures Listed(backup, table, id, cells) <==> BelongsTo(db, request, table, id) && db[table][id] == cells
    ensures table in backup.tables ==>
              forall i, j | 0 <= i < j < |backup.tables[table]| :: backup.tables[table][i].id != backup.tables[table][j].id
  {
    assert Managed(table);
    ListedIsSelected(db, backup, table, id, cells);
    if table in db && id in db[table] {
      ReadsWhatBelongs(db, request, backup, table, id);
    }
  }

  // ---------- what a restore brings back ----------

  /** The row of the table is one the restore looks for: it names the request, or a backed-up voucher, or is a backed-up relation's file. */
  ghost predicate Sought(backup: Snapshot, table: Table, id: Key, cells: Cells) {
    match table
    case PassportBorrowRequests => id == backup.request
    case PassportDelegationItems | PassportHistories | PassportVouchers | PassportVoucherItems =>
      RequestId in cells && cells[RequestId] == Text(backup.request)
    case WorkItems | Audit | DocumentComments => SoughtBy(backup, cells, DocumentId)
    case FileRelations => SoughtBy(backup, cells, ObjectId)
    case _ => false
  }

  ghost predicate SoughtBy(backup: Snapshot, cells: Cells, column: Column) {
    column in cells
    && (cells[column] == Text(backup.request) || exists voucher, c :: Listed(backup, PassportVouchers, voucher, c) && cells[column] == Text(voucher))
  }

  lemma SoughtExactly(backup: Snapshot, table: Table, id: Key, cells: Cells)
    requires PutBack(table)
    ensures Sought(backup, table, id, cells) <==> Matches(ReadWhere(backup, table), id, cells)
  {
    if table in {WorkItems, Audit, DocumentComments, FileRelations} {
      var column := if table == FileRelations then ObjectId else DocumentId;
      var rows := RowsOf(backup, PassportVouchers);
      OneOf(id, cells, column, {backup.request} + Ids(rows));
      if t :| t in Ids(rows) && column in cells && cells[column] == Text(t) {
        var row :| row in rows && row.id == t;
        assert row == Record(t, row.cells) && Listed(backup, PassportVouchers, t, row.cells);
      }
      if voucher, c :| Listed(backup, PassportVouchers, voucher, c) && column in cells && cells[column] == Text(voucher) {
        assert Record(voucher, c) in rows && voucher in Ids(rows);
      }
    } else if table != PassportBorrowRequests {
      OneOf(id, cells, RequestId, {backup.request});
    }
  }

  /** After the restore the row is there with these cells, and is one the restore looked for. */
  ghost predicate Returned(after: Database, backup: Snapshot, table: Table, id: Key, cells: Cells) {
    table in after && id in after[table] && after[table][id] == cells && Sought(backup, table, id, cells)
  }

  /** The rows of a table the restore looks for, in the database it starts from. */
  ghost predicate SeeksNothing(db: Database, backup: Snapshot, table: Table) {
    table in db && forall id | id in db[table] :: !Sought(backup, table, id, db[table][id])
  }

  /**
   After any committed restore the rows of a table that were looked for are exactly the backed-up ones, if
   and only if its delete was not stuck or had nothing to look for.
   */
  lemma CommitBringsBackExactlyUnlessStuck(server: Server, db0: Database, db: Database, request: Key, backup: Snapshot, table: Table)
    requires IsBackup(db0, request, backup) && Consistent(server, db0)
    requires RequestSchema(server) && Closed(server, db) && RestoreOnto(server, db, backup).Some? && table in db
    requires PutBack(table)
    ensures 0 <= DeleteRank(table)
    ensures (forall id, cells :: Returned(RestoreOnto(server, db, backup).value, backup, table, id, cells) <==> Listed(backup, table, id, cells))
            <==> !Stuck(server, db, backup, table) || SeeksNothing(db, backup, table)
  {
    var after := RestoreOnto(server, db, backup).value;
    var i := IndexOf(backup, table);
    ReinsertedExactlyUnlessStuck(server, db0, db, request, backup, i);
    KeysKept(server, db, DeletePlan(backup));
    assert after.Keys == db.Keys;
    ReturnedExactly(db0, after, request, backup, table);
    NothingSought(db, backup, table);
  }

  lemma IndexOf(backup: Snapshot, table: Table) returns (i: nat)
    requires PutBack(table)
    ensures i < |DeletePlan(backup)| && DeletePlan(backup)[i].table == table
    ensures DeletePlan(backup)[i].where == ReadWhere(backup, table) && 0 <= DeleteRank(table)
  {
    i := DeleteRank(table);
    assert OrderedSteps(backup)[i] == StepOf(backup, table);
  }

  lemma NothingSought(db: Database, backup: Snapshot, table: Table)
    requires table in db
    requires PutBack(table)
    ensures SeeksNothing(db, backup, table) <==> Selected(db[table], ReadWhere(backup, table)) == map[]
  {
    forall id | id in db[table] ensures Sought(backup, table, id, db[table][id]) <==> Matches(ReadWhere(backup, table), id, db[table][id]) {
      SoughtExactly(backup, table, id, db[table][id]);
    }
    if !SeeksNothing(db, backup, table) {
      var id :| id in db[table] && Sought(backup, table, id, db[table][id]);
      assert id in Selected(db[table], ReadWhere(backup, table));
    }
  }

  lemma ReturnedExactly(db0: Database, after: Database, request: Key, backup: Snapshot, table: Table)
    requires IsBackup(db0, request, backup) && table in after
    requires PutBack(table)
    ensures (forall id, cells :: Returned(after, backup, table, id, cells) <==> Listed(backup, table, id, cells)) <==>
              Selected(after[table], ReadWhere(backup, table)) == Selected(RowsIn(db0, table), ReadWhere(backup, table))
  {
    var where := ReadWhere(backup, table);
    var a, b := Selected(after[table], where), Selected(RowsIn(db0, table), where);
    forall id, cells
      ensures Returned(after, backup, table, id, cells) <==> id in a && a[id] == cells
      ensures Listed(backup, table, id, cells) <==> id in b && b[id] == cells
    {
      SoughtExactly(backup, table, id, cells);
      assert Managed(table);
      ListedIsSelected(db0, backup, table, id, cells);
    }
    if forall id, cells :: Returned(after, backup, table, id, cells) <==> Listed(backup, table, id, cells) {
      forall id ensures (id in a <==> id in b) && (id in a ==> a[id] == b[id]) {
        if id in a { assert Returned(after, backup, table, id, a[id]); }
        if id in b { assert Listed(backup, table, id, b[id]); }
      }
    }
  }

  /** After a commit every passport the request names has the cells it had in the backup; no other passport changes. */
  lemma NamedPassportsComeBack(server: Server, db0: Database, db: Database, request: Key, backup: Snapshot, id: Key)
    requires IsBackup(db0, request, backup) && NoCascadesIn(server) && Closed(server, db)
    requires RestoreOnto(server, db, backup).Some? && Passports in db
    ensures Passports in RestoreOnto(server, db, backup).value
    ensures var after := RestoreOnto(server, db, backup).value[Passports];
            && (BelongsTo(db0, request, Passports, id) ==>
                  id in after && forall c | c in db0[Passports][id] :: c in after[id] && after[id][c] == db0[Passports][id][c])
            && (!BelongsTo(db0, request, Passports, id) ==>
                  (id in after <==> id in db[Passports]) && (id in after ==> after[id] == db[Passports][id]))
  {
    var rows := RowsOf(backup, Passports);
    PassportsUpserted(server, db0, db, request, backup);
    if BelongsTo(db0, request, Passports, id) {
      BackupListsTheRequest(db0, request, backup, Passports, id, db0[Passports][id]);
      assert Record(id, db0[Passports][id]) in rows;
    } else if Mentions(rows, id) {
      var i :| 0 <= i < |rows| && rows[i].id == id;
      assert rows[i] == Record(id, rows[i].cells);
      BackupListsTheRequest(db0, request, backup, Passports, id, rows[i].cells);
    }
  }
}
