/**
 Backup of one passport borrow request and its restore
 (backend_nest/scripts/backup-passport-request.js and restore-passport-request.js). Every delete is
 tolerated, and passports are master data: they are updated or inserted, never deleted.
 */
module PassportBackup {
  import opened Prelude
  import opened Relational
  import opened DeleteTheory
  import opened RestoreTheory
  import opened RestoreReadiness
  import opened RestoreAgain
  import opened Connections

  datatype Snapshot = Snapshot(request: Key, tables: map<Table, seq<Record>>)

  function RowsOf(backup: Snapshot, table: Table): seq<Record> {
    if table in backup.tables then backup.tables[table] else []
  }

  // ---------- what a backup holds ----------

  const REQUEST_TABLES: seq<Table> :=
    [PassportBorrowRequests, PassportDelegationItems, PassportHistories, PassportVouchers, PassportVoucherItems]

  const PROCESS_TABLES: seq<Table> := [WorkItems, Audit, DocumentComments, FileRelations]

  predicate OfRequest(table: Table) {
    || table.PassportBorrowRequests? || table.PassportDelegationItems? || table.PassportHistories?
    || table.PassportVouchers? || table.PassportVoucherItems?
  }

  predicate OfProcess(table: Table) {
    table.WorkItems? || table.Audit? || table.DocumentComments? || table.FileRelations?
  }

  predicate Managed(table: Table) {
    OfRequest(table) || OfProcess(table) || table.Files? || table.Passports?
  }

  function RequestWhere(request: Key, table: Table): Where {
    if table.PassportBorrowRequests? then IdIn({request}) else ColumnIn(RequestId, {request})
  }

  /** Workflow rows hang on the request or on one of its vouchers. */
  function ProcessWhere(request: Key, vouchers: set<Key>, table: Table): Where {
    ColumnIn(if table.FileRelations? then ObjectId else DocumentId, {request} + vouchers)
  }

  /** File ids as they are spliced into the query text, a NULL printing as null. */
  function Spliced(value: Value): string {
    if value.Text? then value.text else "null"
  }

  function FileNames(relations: seq<Record>): set<string> {
    set row | row in relations :: Spliced(Cell(row.cells, FileId))
  }

  function PassportsNamed(rows: seq<Record>): set<Key> {
    set row | row in rows && Cell(row.cells, PassportId).Text? :: Cell(row.cells, PassportId).text
  }

  function PassportIds(backup: Snapshot): set<Key> {
    PassportsNamed(RowsOf(backup, PassportBorrowRequests))
    + PassportsNamed(RowsOf(backup, PassportDelegationItems))
    + PassportsNamed(RowsOf(backup, PassportVoucherItems))
  }

  /** The condition by which each table of the backup was selected. */
  function ReadWhere(backup: Snapshot, table: Table): Where {
    if OfRequest(table) then RequestWhere(backup.request, table)
    else if OfProcess(table) then ProcessWhere(backup.request, Ids(RowsOf(backup, PassportVouchers)), table)
    else if table.Files? then IdIn(FileNames(RowsOf(backup, FileRelations)))
    else IdIn(PassportIds(backup))
  }

  ghost predicate IsBackup(db: Database, request: Key, backup: Snapshot) {
    && backup.request == request
    && forall table | Managed(table) ::
         Lists(RowsOf(backup, table), Selected(RowsIn(db, table), ReadWhere(backup, table)))
  }

  // ---------- the restore program ----------

  const DELETE_ORDER: seq<Table> :=
    [WorkItems, Audit, DocumentComments, FileRelations, PassportVoucherItems, PassportVouchers,
     PassportHistories, PassportDelegationItems, PassportBorrowRequests]

  const INSERT_ORDER: seq<Table> :=
    [Passports, PassportBorrowRequests, PassportDelegationItems, PassportHistories, PassportVouchers,
     PassportVoucherItems, Files, FileRelations, Audit, WorkItems, DocumentComments]

  function StepOf(backup: Snapshot, table: Table): DeleteStep {
    DeleteStep(table, ReadWhere(backup, table), true)
  }

  function OrderedSteps(backup: Snapshot): seq<DeleteStep> {
    seq(|DELETE_ORDER|, i requires 0 <= i < |DELETE_ORDER| => StepOf(backup, DELETE_ORDER[i]))
  }

  function FileSteps(backup: Snapshot): seq<DeleteStep> {
    if RowsOf(backup, FileRelations) == [] then [] else [StepOf(backup, Files)]
  }

  function DeletePlan(backup: Snapshot): seq<DeleteStep> {
    OrderedSteps(backup) + FileSteps(backup)
  }

  function LoadOfTable(backup: Snapshot, table: Table): Load {
    Load(table, RowsOf(backup, table), if table.Passports? then Upsert else Plain)
  }

  function LoadPlan(backup: Snapshot): seq<Load> {
    seq(|INSERT_ORDER|, k requires 0 <= k < |INSERT_ORDER| => LoadOfTable(backup, INSERT_ORDER[k]))
  }

  function RestoreOnto(server: Server, db: Database, backup: Snapshot): Option<Database> {
    Restore(server, db, DeletePlan(backup), LoadPlan(backup))
  }

  function DeleteRank(table: Table): int {
    match table
    case WorkItems => 0
    case Audit => 1
    case DocumentComments => 2
    case FileRelations => 3
    case PassportVoucherItems => 4
    case PassportVouchers => 5
    case PassportHistories => 6
    case PassportDelegationItems => 7
    case PassportBorrowRequests => 8
    case Files => 9
    case _ => -1
  }

  function LoadRank(table: Table): int {
    match table
    case Passports => 0
    case PassportBorrowRequests => 1
    case PassportDelegationItems => 2
    case PassportHistories => 3
    case PassportVouchers => 4
    case PassportVoucherItems => 5
    case Files => 6
    case FileRelations => 7
    case Audit => 8
    case WorkItems => 9
    case DocumentComments => 10
    case _ => -1
  }

  lemma DeletePlanShape(backup: Snapshot)
    ensures |DeletePlan(backup)| in {9, 10} && DistinctDeletes(DeletePlan(backup))
    ensures forall i | 0 <= i < |DeletePlan(backup)| ::
              && DeleteRank(DeletePlan(backup)[i].table) == i
              && Managed(DeletePlan(backup)[i].table)
              && DeletePlan(backup)[i] == StepOf(backup, DeletePlan(backup)[i].table)
  {
    var ordered := OrderedSteps(backup);
    assert forall i | 0 <= i < 9 :: DeleteRank(ordered[i].table) == i && Managed(ordered[i].table);
  }

  lemma LoadPlanShape(backup: Snapshot)
    ensures |LoadPlan(backup)| == 11 && DistinctLoads(LoadPlan(backup))
    ensures forall k | 0 <= k < 11 :: LoadRank(LoadPlan(backup)[k].table) == k && Managed(LoadPlan(backup)[k].table)
    ensures forall k | 0 <= k < 11 :: LoadPlan(backup)[k] == LoadOfTable(backup, LoadPlan(backup)[k].table)
    ensures forall table | Managed(table) :: LoadPlan(backup)[LoadRank(table)] == LoadOfTable(backup, table)
  {
    InsertOrderRanks();
  }

  lemma InsertOrderRanks()
    ensures |INSERT_ORDER| == 11
    ensures forall k | 0 <= k < 11 :: LoadRank(INSERT_ORDER[k]) == k && Managed(INSERT_ORDER[k])
    ensures forall table | Managed(table) :: 0 <= LoadRank(table) < 11 && INSERT_ORDER[LoadRank(table)] == table
  {
  }

  // ---------- the references between the tables ----------

  /** No delete from the request's tables cascades; the entities declare none. */
  ghost predicate NoCascadesIn(server: Server) {
    forall fk | Cascading(server, fk) :: DeleteRank(fk.parent) < 0
  }

  /** Deleted tables are referred to only by tables emptied earlier, or by tables outside the script. */
  ghost predicate RequestSchema(server: Server) {
    && NoCascadesIn(server)
    && forall fk | fk in server.foreignKeys && 0 <= DeleteRank(fk.parent) && fk.child != fk.parent ::
         fk.child != Passports && DeleteRank(fk.child) < DeleteRank(fk.parent)
  }

  lemma DeleteSparesOthers(server: Server, from: Table, to: Table)
    requires NoCascadesIn(server) && 0 <= DeleteRank(from) && from != to
    ensures Spares(server, from, to)
  {
    assert CascadeClosed(server, {from});
  }

  lemma PlanStep(backup: Snapshot, step: DeleteStep)
    requires step in DeletePlan(backup)
    ensures 0 <= DeleteRank(step.table) && step == StepOf(backup, step.table)
  {
    DeletePlanShape(backup);
    var plan := DeletePlan(backup);
    var i :| 0 <= i < |plan| && plan[i] == step;
    assert DeleteRank(plan[i].table) == i;
  }

  lemma StepsSpareOthers(server: Server, backup: Snapshot, steps: set<DeleteStep>, table: Table)
    requires NoCascadesIn(server) && steps <= StepsOf(DeletePlan(backup))
    requires forall step | step in steps :: step.table != table
    ensures AllSpare(server, steps, table)
  {
    forall step | step in steps ensures Spares(server, step.table, table) {
      PlanStep(backup, step);
      DeleteSparesOthers(server, step.table, table);
    }
  }

  /** The deletes take just the rows they aim at. */
  lemma TakesAimed(server: Server, db: Database, backup: Snapshot, steps: set<DeleteStep>, table: Table, id: Key)
    requires NoCascadesIn(server) && NoOrphans(server, db) && steps <= StepsOf(DeletePlan(backup))
    ensures id in RowsIn(Kept(server, db, steps), table) <==>
              id in RowsIn(db, table) && !Aimed(steps, table, id, RowsIn(db, table)[id])
  {
    forall fk | Cascading(server, fk) && fk.child == table ensures AllSpare(server, steps, fk.parent) {
      forall step | step in steps ensures step.table != fk.parent {
        PlanStep(backup, step);
      }
      StepsSpareOthers(server, backup, steps, fk.parent);
    }
    TableLosesOnlyAimed(server, db, steps, table, id);
  }

  lemma PhaseOf(server: Server, db: Database, backup: Snapshot)
    requires Closed(server, db)
    ensures RunDeletes(server, db, DeletePlan(backup)).Some? && NoOrphans(server, db)
    ensures var left, steps := RunDeletes(server, db, DeletePlan(backup)).value, AcceptedSteps(server, db, DeletePlan(backup));
            && left == Kept(server, db, steps) && left.Keys == db.Keys && Closed(server, left) && Sub(left, db)
            && steps <= StepsOf(DeletePlan(backup))
  {
    DeletePlanShape(backup);
    ToleratedGoesThrough(server, db, DeletePlan(backup));
    ClosedHasNoOrphans(server, db);
    DeletePhase(server, db, DeletePlan(backup));
    DeletesKeepClosed(server, db, DeletePlan(backup));
    KeptIsInside(server, db, AcceptedSteps(server, db, DeletePlan(backup)));
  }

  /** A delete phase all of whose errors are caught goes through. */
  lemma {:induction false} ToleratedGoesThrough(server: Server, db: Database, steps: seq<DeleteStep>)
    requires forall i | 0 <= i < |steps| :: steps[i].tolerant
    ensures RunDeletes(server, db, steps).Some?
  {
    if steps != [] {
      ToleratedGoesThrough(server, db, steps[..|steps| - 1]);
    }
  }

  // ---------- restoring twice ----------

  lemma LaterGoesOn(backup: Snapshot, i: nat, step: DeleteStep)
    requires i < |DeletePlan(backup)| && step in Later(DeletePlan(backup), i)
    ensures step in DeletePlan(backup) && i < DeleteRank(step.table)
  {
    DeletePlanShape(backup);
    var plan := DeletePlan(backup);
    var m :| 0 <= m < |plan[i + 1..]| && plan[i + 1..][m] == step;
    assert plan[i + 1 + m] == step && DeleteRank(plan[i + 1 + m].table) == i + 1 + m;
  }

  lemma LaterSpares(server: Server, backup: Snapshot, i: nat, table: Table)
    requires NoCascadesIn(server) && i < |DeletePlan(backup)| && DeleteRank(table) <= i
    ensures AllSpare(server, Later(DeletePlan(backup), i), table)
  {
    forall step | step in Later(DeletePlan(backup), i) ensures step in DeletePlan(backup) && step.table != table {
      LaterGoesOn(backup, i, step);
    }
    StepsSpareOthers(server, backup, Later(DeletePlan(backup), i), table);
  }

  lemma TakenIsOwn(server: Server, db: Database, backup: Snapshot, i: nat, table: Table, id: Key)
    requires NoCascadesIn(server) && NoOrphans(server, db) && i < |DeletePlan(backup)|
    requires TakenBy(server, db, DeletePlan(backup)[i], table, id)
    ensures table == DeletePlan(backup)[i].table && id in Selected(RowsIn(db, table), DeletePlan(backup)[i].where)
  {
    var step := DeletePlan(backup)[i];
    assert step in StepsOf(DeletePlan(backup));
    TakesAimed(server, db, backup, {step}, table, id);
  }

  lemma TakenOutlives(server: Server, db: Database, backup: Snapshot, i: nat, table: Table, id: Key)
    requires NoCascadesIn(server) && NoOrphans(server, db) && i < |DeletePlan(backup)|
    requires TakenBy(server, db, DeletePlan(backup)[i], table, id)
    ensures id in RowsIn(Kept(server, db, Later(DeletePlan(backup), i)), table)
  {
    DeletePlanShape(backup);
    TakenIsOwn(server, db, backup, i, table, id);
    assert DeleteRank(DeletePlan(backup)[i].table) == i;
    LaterSpares(server, backup, i, table);
    SparedTableStays(server, db, Later(DeletePlan(backup), i), table);
  }

  lemma ReferrerOutlives(server: Server, db: Database, backup: Snapshot, i: nat, fk: ForeignKey, id: Key)
    requires RequestSchema(server) && NoOrphans(server, db) && i < |DeletePlan(backup)|
    requires RefersInto(server, db, DeletePlan(backup)[i], fk, id)
    ensures !UpsertsInto(LoadPlan(backup), fk.child)
    ensures id in RowsIn(Kept(server, db, Later(DeletePlan(backup), i)), fk.child)
  {
    DeletePlanShape(backup);
    TakenIsOwn(server, db, backup, i, fk.parent, Cell(RowsIn(db, fk.child)[id], fk.column).text);
    assert DeleteRank(DeletePlan(backup)[i].table) == i;
    UpsertsOnlyPassports(backup, fk.child);
    LaterSpares(server, backup, i, fk.child);
    SparedTableStays(server, db, Later(DeletePlan(backup), i), fk.child);
  }

  lemma StepLasts(server: Server, db: Database, backup: Snapshot, i: nat)
    requires RequestSchema(server) && NoOrphans(server, db) && i < |DeletePlan(backup)|
    ensures Lasting(server, db, DeletePlan(backup), LoadPlan(backup), i)
  {
    var plan, later := DeletePlan(backup), Later(DeletePlan(backup), i);
    forall table, id | TakenBy(server, db, plan[i], table, id) ensures id in RowsIn(Kept(server, db, later), table) {
      TakenOutlives(server, db, backup, i, table, id);
    }
    forall fk, id | RefersInto(server, db, plan[i], fk, id)
      ensures !UpsertsInto(LoadPlan(backup), fk.child) && id in RowsIn(Kept(server, db, later), fk.child)
    {
      ReferrerOutlives(server, db, backup, i, fk, id);
    }
  }

  /**
   Restoring a request twice gives the database of restoring it once, whatever deletes the server
   refused and whatever rows those left behind.
   */
  lemma PassportRestoreTwice(server: Server, db: Database, request: Key, db0: Database, backup: Snapshot)
    requires IsBackup(db0, request, backup)
    requires RequestSchema(server) && Closed(server, db)
    ensures var once := AfterRestore(server, db, DeletePlan(backup), LoadPlan(backup));
            AfterRestore(server, once, DeletePlan(backup), LoadPlan(backup)) == once
  {
    var plan, loads := DeletePlan(backup), LoadPlan(backup);
    ClosedHasNoOrphans(server, db);
    LoadPlanShape(backup);
    UpsertIsApart(server, db0, request, backup);
    forall i | 0 <= i < |plan| ensures Repeatable(server, db, plan, loads, i) {
      StepLasts(server, db, backup, i);
    }
    RestoreTwice(server, db, plan, loads);
  }

  lemma UpsertIsApart(server: Server, db0: Database, request: Key, backup: Snapshot)
    requires IsBackup(db0, request, backup) && NoCascadesIn(server)
    ensures UpsertsApart(server, DeletePlan(backup), LoadPlan(backup))
  {
    var plan, loads := DeletePlan(backup), LoadPlan(backup);
    LoadPlanShape(backup);
    forall i | 0 <= i < |loads| && loads[i].mode.Upsert?
      ensures DistinctIds(loads[i].rows) && AllSpare(server, StepsOf(plan), loads[i].table)
    {
      assert loads[i] == LoadOfTable(backup, loads[i].table);
      assert Lists(RowsOf(backup, Passports), Selected(RowsIn(db0, Passports), ReadWhere(backup, Passports)));
      forall step | step in StepsOf(plan) ensures step.table != Passports {
        PlanStep(backup, step);
      }
      StepsSpareOthers(server, backup, StepsOf(plan), Passports);
    }
  }

  lemma UpsertsOnlyPassports(backup: Snapshot, table: Table)
    requires table != Passports
    ensures !UpsertsInto(LoadPlan(backup), table)
  {
    LoadPlanShape(backup);
  }

  // ---------- passports ----------

  /**
   Master data: after a commit every backed-up passport carries each backed-up cell, keeps any other
   cell it had, and every other passport is untouched; none disappears and none else appears.
   */
  lemma PassportsUpserted(server: Server, db0: Database, db: Database, request: Key, backup: Snapshot)
    requires IsBackup(db0, request, backup) && RestoreOnto(server, db, backup).Some? && Passports in db
    requires NoCascadesIn(server) && Closed(server, db)
    ensures Passports in RestoreOnto(server, db, backup).value
    ensures var after, rows := RestoreOnto(server, db, backup).value[Passports], RowsOf(backup, Passports);
            && (forall id :: id in after <==> id in db[Passports] || Mentions(rows, id))
            && (forall id | id in db[Passports] && !Mentions(rows, id) :: after[id] == db[Passports][id])
            && (forall row | row in rows :: row.id in after && CellsMerged(server, db[Passports], row, after[row.id]))
  {
    var rows := RowsOf(backup, Passports);
    assert Lists(rows, Selected(RowsIn(db0, Passports), ReadWhere(backup, Passports)));
    PassportTable(server, db, backup);
    UpsertedKeys(server, Passports, db[Passports], rows);
    UpsertedAt(server, Passports, db[Passports], rows);
    forall row | row in rows
      ensures row.id in Upserted(server, Passports, db[Passports], rows)
      ensures CellsMerged(server, db[Passports], row, Upserted(server, Passports, db[Passports], rows)[row.id])
    {
      UpsertedCells(server, db[Passports], rows, row);
    }
  }

  lemma UpsertedCells(server: Server, before: Rows, rows: seq<Record>, row: Record)
    requires DistinctIds(rows) && row in rows && row.cells.Keys * server.computed(Passports) == {}
    ensures row.id in Upserted(server, Passports, before, rows)
    ensures CellsMerged(server, before, row, Upserted(server, Passports, before, rows)[row.id])
  {
    var i :| 0 <= i < |rows| && rows[i] == row;
    UpsertedHere(server, Passports, before, rows, i);
    MergedCells(server, before, row);
  }

  /** `after` has the cells of the backed-up row and, besides computed ones, only others it had before. */
  ghost predicate CellsMerged(server: Server, before: Rows, row: Record, after: Cells) {
    && (forall c | c in row.cells :: c in after && after[c] == row.cells[c])
    && (forall c | c in after && c !in row.cells && c !in server.computed(Passports) ::
          row.id in before && c in before[row.id] && after[c] == before[row.id][c])
  }

  lemma MergedCells(server: Server, before: Rows, row: Record)
    requires row.cells.Keys * server.computed(Passports) == {}
    ensures CellsMerged(server, before, row, Merged(server, Passports, before, row))
  {
    assert forall c | c in row.cells && c in server.computed(Passports) :: c in row.cells.Keys * server.computed(Passports);
  }

  /** Passports are no part of the delete phase, so the upsert starts from the table as it was. */
  lemma PassportTable(server: Server, db: Database, backup: Snapshot)
    requires RestoreOnto(server, db, backup).Some? && Passports in db
    requires NoCascadesIn(server) && Closed(server, db)
    ensures Passports in RestoreOnto(server, db, backup).value
    ensures RestoreOnto(server, db, backup).value[Passports] ==
            Upserted(server, Passports, db[Passports], RowsOf(backup, Passports))
    ensures forall row | row in RowsOf(backup, Passports) :: row.cells.Keys * server.computed(Passports) == {}
  {
    var mid := RunDeletes(server, db, DeletePlan(backup)).value;
    LoadPlanShape(backup);
    UndeletedStays(server, db, backup, Passports);
    LoadOf(server, mid, LoadPlan(backup), LoadRank(Passports));
  }

  // ---------- tables deleted from and reinserted into ----------

  /** Tables that no delete of the script names are as before after the delete phase. */
  lemma UndeletedStays(server: Server, db: Database, backup: Snapshot, table: Table)
    requires NoCascadesIn(server) && Closed(server, db) && !DeletesFrom(DeletePlan(backup), table)
    ensures RunDeletes(server, db, DeletePlan(backup)).Some?
    ensures RowsIn(RunDeletes(server, db, DeletePlan(backup)).value, table) == RowsIn(db, table)
    ensures RunDeletes(server, db, DeletePlan(backup)).value.Keys == db.Keys
  {
    var plan, steps := DeletePlan(backup), AcceptedSteps(server, db, DeletePlan(backup));
    PhaseOf(server, db, backup);
    forall step | step in steps ensures step.table != table {
      var i :| 0 <= i < |plan| && plan[i] == step;
    }
    StepsSpareOthers(server, backup, steps, table);
    SparedTableStays(server, db, steps, table);
  }

  lemma OneStepATable(plan: seq<DeleteStep>, i: nat, j: nat)
    requires DistinctDeletes(plan) && i < |plan| && j < |plan| && plan[i].table == plan[j].table
    ensures i == j
  {
  }

  lemma AimedExactly(server: Server, db: Database, plan: seq<DeleteStep>, i: nat, id: Key, cells: Cells)
    requires DistinctDeletes(plan) && i < |plan|
    ensures Aimed(AcceptedSteps(server, db, plan), plan[i].table, id, cells) <==>
            Accepted(server, db, plan, i) && Matches(plan[i].where, id, cells)
  {
    if Accepted(server, db, plan, i) {
      assert Accepts(server, db, plan, plan[i]);
    }
    forall step | Accepts(server, db, plan, step) && step.table == plan[i].table ensures step == plan[i] && Accepted(server, db, plan, i) {
      var j :| 0 <= j < |plan| && plan[j] == step && Accepted(server, db, plan, j);
      OneStepATable(plan, i, j);
    }
  }

  /** What the delete phase leaves in a table it deletes from. */
  lemma DeletedTable(server: Server, db: Database, backup: Snapshot, i: nat)
    requires NoCascadesIn(server) && Closed(server, db) && i < |DeletePlan(backup)| && DeletePlan(backup)[i].table in db
    ensures RunDeletes(server, db, DeletePlan(backup)).Some?
    ensures var table := DeletePlan(backup)[i].table;
            RowsIn(RunDeletes(server, db, DeletePlan(backup)).value, table) ==
            if Accepted(server, db, DeletePlan(backup), i) then Unselected(db[table], ReadWhere(backup, table)) else db[table]
  {
    var plan, table := DeletePlan(backup), DeletePlan(backup)[i].table;
    var steps := AcceptedSteps(server, db, plan);
    DeletePlanShape(backup);
    PhaseOf(server, db, backup);
    var left := RunDeletes(server, db, plan).value;
    forall id ensures id in RowsIn(left, table) <==>
                      id in db[table] && !(Accepted(server, db, plan, i) && Matches(plan[i].where, id, db[table][id])) {
      TakesAimed(server, db, backup, steps, table, id);
      if id in db[table] {
        AimedExactly(server, db, plan, i, id, db[table][id]);
      }
    }
    assert Within(left[table], db[table]);
  }

  /** What a committed restore leaves in a table that is deleted from and reinserted into. */
  lemma ReinsertedTable(server: Server, db: Database, backup: Snapshot, i: nat)
    requires NoCascadesIn(server) && Closed(server, db)
    requires RestoreOnto(server, db, backup).Some? && i < |DeletePlan(backup)|
    requires DeletePlan(backup)[i].table in db
    ensures var table := DeletePlan(backup)[i].table;
            var left := if Accepted(server, db, DeletePlan(backup), i)
                        then Unselected(db[table], ReadWhere(backup, table)) else db[table];
            && table in RestoreOnto(server, db, backup).value
            && RestoreOnto(server, db, backup).value[table] == left + Image(server, table, RowsOf(backup, table))
            && left.Keys !! Image(server, table, RowsOf(backup, table)).Keys
  {
    DeletePlanShape(backup);
    var table := DeletePlan(backup)[i].table;
    PlainLoadAt(backup, table);
    var mid := RunDeletes(server, db, DeletePlan(backup)).value;
    DeletedTable(server, db, backup, i);
    KeysKept(server, db, DeletePlan(backup));
    PlainLoad(server, mid, LoadPlan(backup), LoadRank(table), table, RowsOf(backup, table));
  }

  lemma ReinsertedParts(server: Server, db0: Database, db: Database, request: Key, backup: Snapshot, i: nat)
    requires IsBackup(db0, request, backup) && Consistent(server, db0)
    requires NoCascadesIn(server) && Closed(server, db)
    requires RestoreOnto(server, db, backup).Some? && i < |DeletePlan(backup)|
    requires DeletePlan(backup)[i].table in db
    ensures var table, where := DeletePlan(backup)[i].table, DeletePlan(backup)[i].where;
            var after := RowsIn(RestoreOnto(server, db, backup).value, table);
            && Unselected(after, where) == Unselected(db[table], where)
            && (Selected(after, where) == Selected(RowsIn(db0, table), where) <==>
                Accepted(server, db, DeletePlan(backup), i) || Selected(db[table], where) == map[])
  {
    DeletePlanShape(backup);
    var table, where := DeletePlan(backup)[i].table, DeletePlan(backup)[i].where;
    ReinsertedTable(server, db, backup, i);
    var slice := Selected(RowsIn(db0, table), where);
    assert Lists(RowsOf(backup, table), slice);
    ImageOfBackup(server, db0, table, where, RowsOf(backup, table));
    ExactlyWhenGone(db[table], where, Accepted(server, db, DeletePlan(backup), i), slice);
  }

  lemma ExactlyWhenGone(rows: Rows, where: Where, gone: bool, slice: Rows)
    requires forall id | id in slice :: Matches(where, id, slice[id])
    requires (if gone then Unselected(rows, where) else rows).Keys !! slice.Keys
    ensures var after := (if gone then Unselected(rows, where) else rows) + slice;
            && Unselected(after, where) == Unselected(rows, where)
            && (Selected(after, where) == slice <==> gone || Selected(rows, where) == map[])
  {
    Split(rows, where);
    assert Unselected(rows, where) + map[] == Unselected(rows, where);
    PartsOf(rows, where, if gone then map[] else Selected(rows, where), slice);
  }

  // ---------- which deletes are refused ----------

  /**
   The delete from this table is refused: it may not be written, or a row stays that refers to a row to
   be removed. A row stays unless a delete removes it that is not itself stuck.
   */
  ghost predicate Stuck(server: Server, db: Database, backup: Snapshot, table: Table)
    requires 0 <= DeleteRank(table)
    decreases DeleteRank(table)
  {
    || table !in db || table in server.frozen
    || exists fk, id ::
         && HoldsBack(server, db, backup, table, fk, id)
         && (MeantToGo(db, backup, table, fk.child, id) ==> Stuck(server, db, backup, fk.child))
  }

  /** An earlier delete looks for the row. */
  ghost predicate MeantToGo(db: Database, backup: Snapshot, table: Table, child: Table, id: Key)
    requires id in RowsIn(db, child)
  {
    && 0 <= DeleteRank(child) < DeleteRank(table) && DeletesFrom(DeletePlan(backup), child)
    && Matches(ReadWhere(backup, child), id, RowsIn(db, child)[id])
  }

  /** The row refers to one the delete looks for, and is not one of those itself. */
  ghost predicate HoldsBack(server: Server, db: Database, backup: Snapshot, table: Table, fk: ForeignKey, id: Key) {
    && fk in server.foreignKeys && fk.parent == table && id in RowsIn(db, fk.child)
    && Cell(RowsIn(db, fk.child)[id], fk.column).Text?
    && Cell(RowsIn(db, fk.child)[id], fk.column).text in Selected(RowsIn(db, table), ReadWhere(backup, table))
    && (fk.child == table ==> !Matches(ReadWhere(backup, table), id, RowsIn(db, table)[id]))
  }

  /** No delete that goes through removes the row before the delete from the table has been carried out. */
  ghost predicate Remains(server: Server, db: Database, backup: Snapshot, table: Table, child: Table, id: Key) {
    id in RowsIn(db, child) && (MeantToGo(db, backup, table, child, id) ==> Stuck(server, db, backup, child))
  }

  ghost predicate KnownBefore(server: Server, db: Database, backup: Snapshot, i: nat) {
    forall j | 0 <= j < i && j < |DeletePlan(backup)| && DeletePlanIndexed(backup, j) ::
      Accepted(server, db, DeletePlan(backup), j) <==> !Stuck(server, db, backup, DeletePlan(backup)[j].table)
  }

  /** Which rows that hold the i-th delete back are still there when it has been carried out. */
  lemma StaysUntil(server: Server, db: Database, backup: Snapshot, i: nat, before: set<DeleteStep>, fk: ForeignKey, id: Key)
    requires NoCascadesIn(server) && NoOrphans(server, db) && i < |DeletePlan(backup)| && DeletePlanIndexed(backup, i)
    requires before == AcceptedSteps(server, db, DeletePlan(backup)[..i])
    requires HoldsBack(server, db, backup, DeletePlan(backup)[i].table, fk, id) && KnownBefore(server, db, backup, i)
    ensures id in RowsIn(Kept(server, db, before + {DeletePlan(backup)[i]}), fk.child) <==>
              Remains(server, db, backup, DeletePlan(backup)[i].table, fk.child, id)
  {
    var plan, cells := DeletePlan(backup), RowsIn(db, fk.child)[id];
    DeletePlanShape(backup);
    assert before + {plan[i]} <= StepsOf(plan);
    TakesAimed(server, db, backup, before + {plan[i]}, fk.child, id);
    AimedByEither(before, {plan[i]}, fk.child, id, cells);
    assert !Aimed({plan[i]}, fk.child, id, cells);
    if DeletesFrom(plan, fk.child) && DeleteRank(fk.child) < i {
      AimedEarlier(server, db, backup, i, fk.child, id, cells);
    } else {
      NotAimedBefore(server, db, backup, i, fk.child, id, cells);
    }
  }

  lemma AimedEarlier(server: Server, db: Database, backup: Snapshot, i: nat, table: Table, id: Key, cells: Cells)
    requires i < |DeletePlan(backup)| && KnownBefore(server, db, backup, i)
    requires DeletesFrom(DeletePlan(backup), table) && DeleteRank(table) < i
    ensures 0 <= DeleteRank(table)
    ensures Aimed(AcceptedSteps(server, db, DeletePlan(backup)[..i]), table, id, cells) <==>
              Matches(ReadWhere(backup, table), id, cells) && !Stuck(server, db, backup, table)
  {
    var plan, j := DeletePlan(backup), DeleteRank(table);
    RankIsIndex(backup, table);
    DeletePlanShape(backup);
    assert DeletePlanIndexed(backup, j);
    AcceptedInPrefix(server, db, plan, i);
    AimedExactly(server, db, plan[..i], j, id, cells);
  }

  lemma RankIsIndex(backup: Snapshot, table: Table)
    requires DeletesFrom(DeletePlan(backup), table)
    ensures 0 <= DeleteRank(table) < |DeletePlan(backup)| && DeletePlan(backup)[DeleteRank(table)] == StepOf(backup, table)
  {
    DeletePlanShape(backup);
    var plan := DeletePlan(backup);
    var i :| 0 <= i < |plan| && plan[i].table == table;
    assert DeleteRank(plan[i].table) == i;
  }

  lemma NotAimedBefore(server: Server, db: Database, backup: Snapshot, i: nat, table: Table, id: Key, cells: Cells)
    requires i < |DeletePlan(backup)| && !(DeletesFrom(DeletePlan(backup), table) && DeleteRank(table) < i)
    ensures !Aimed(AcceptedSteps(server, db, DeletePlan(backup)[..i]), table, id, cells)
  {
    var plan := DeletePlan(backup);
    DeletePlanShape(backup);
    forall step | step in AcceptedSteps(server, db, plan[..i]) ensures step.table != table {
      var j :| 0 <= j < i && plan[..i][j] == step;
      assert plan[j] == step && DeleteRank(plan[j].table) == j;
    }
  }

  /** Whether a delete is refused can be told from the database before the restore. */
  lemma {:induction false} AcceptedExactlyUnlessStuck(server: Server, db: Database, backup: Snapshot, i: nat)
    requires RequestSchema(server) && Closed(server, db) && i < |DeletePlan(backup)|
    ensures DeletePlanIndexed(backup, i)
    ensures Accepted(server, db, DeletePlan(backup), i) <==> !Stuck(server, db, backup, DeletePlan(backup)[i].table)
  {
    DeletePlanShape(backup);
    forall j | 0 <= j < i && j < |DeletePlan(backup)| && DeletePlanIndexed(backup, j)
      ensures Accepted(server, db, DeletePlan(backup), j) <==> !Stuck(server, db, backup, DeletePlan(backup)[j].table)
    {
      AcceptedExactlyUnlessStuck(server, db, backup, j);
    }
    PhaseOf(server, db, backup);
    var step := DeletePlan(backup)[i];
    if step.table in db && step.table !in server.frozen {
      if !Accepted(server, db, DeletePlan(backup), i) {
        RefusedIsStuck(server, db, backup, i);
      } else if Stuck(server, db, backup, step.table) {
        StuckIsRefused(server, db, backup, i);
      }
    } else {
      KeysKept(server, db, DeletePlan(backup));
      NeverWritable(server, db, DeletePlan(backup), i);
    }
  }

  ghost predicate DeletePlanIndexed(backup: Snapshot, i: nat) {
    i < |DeletePlan(backup)| && DeleteRank(DeletePlan(backup)[i].table) == i
  }

  lemma NeverWritable(server: Server, db: Database, plan: seq<DeleteStep>, i: nat)
    requires i < |plan| && (plan[i].table !in db || plan[i].table in server.frozen)
    ensures !Accepted(server, db, plan, i)
  {
    if RunDeletes(server, db, plan[..i]).Some? {
      KeysKept(server, db, plan[..i]);
    }
  }

  lemma RefusedIsStuck(server: Server, db: Database, backup: Snapshot, i: nat)
    requires RequestSchema(server) && Closed(server, db) && NoOrphans(server, db) && i < |DeletePlan(backup)|
    requires RunDeletes(server, db, DeletePlan(backup)).Some? && DeletePlanIndexed(backup, i)
    requires DeletePlan(backup)[i].table in db && DeletePlan(backup)[i].table !in server.frozen
    requires KnownBefore(server, db, backup, i)
    requires !Accepted(server, db, DeletePlan(backup), i)
    ensures Stuck(server, db, backup, DeletePlan(backup)[i].table)
  {
    var plan := DeletePlan(backup);
    var before, step := AcceptedSteps(server, db, plan[..i]), plan[i];
    var fk, id := RefusedHasStray(server, db, plan, i, before, step);
    StrayHoldsBack(server, db, backup, i, before, fk, id);
    StaysUntil(server, db, backup, i, before, fk, id);
  }

  lemma StrayHoldsBack(server: Server, db: Database, backup: Snapshot, i: nat, before: set<DeleteStep>, fk: ForeignKey, id: Key)
    requires NoCascadesIn(server) && NoOrphans(server, db) && i < |DeletePlan(backup)|
    requires Stray(server, db, before, DeletePlan(backup)[i], fk, id)
    ensures HoldsBack(server, db, backup, DeletePlan(backup)[i].table, fk, id)
  {
    var step := DeletePlan(backup)[i];
    PlanStep(backup, step);
    KeptIsInside(server, db, before + {step});
    SubRow(Kept(server, db, before + {step}), db, fk.child, id);
    TakenIsOwn(server, db, backup, i, fk.parent, Cell(RowsIn(db, fk.child)[id], fk.column).text);
    assert !Aimed(before + {step}, fk.child, id, RowsIn(db, fk.child)[id]);
    assert step in before + {step};
  }

  lemma StuckIsRefused(server: Server, db: Database, backup: Snapshot, i: nat)
    requires RequestSchema(server) && Closed(server, db) && NoOrphans(server, db) && i < |DeletePlan(backup)|
    requires RunDeletes(server, db, DeletePlan(backup)).Some? && DeletePlanIndexed(backup, i)
    requires DeletePlan(backup)[i].table in db && DeletePlan(backup)[i].table !in server.frozen
    requires KnownBefore(server, db, backup, i)
    requires Stuck(server, db, backup, DeletePlan(backup)[i].table)
    ensures !Accepted(server, db, DeletePlan(backup), i)
  {
    var plan, table := DeletePlan(backup), DeletePlan(backup)[i].table;
    var before, step := AcceptedSteps(server, db, plan[..i]), plan[i];
    var fk, id :| && HoldsBack(server, db, backup, table, fk, id)
                  && (MeantToGo(db, backup, table, fk.child, id) ==> Stuck(server, db, backup, fk.child));
    StaysUntil(server, db, backup, i, before, fk, id);
    HoldingIsStray(server, db, backup, i, before, fk, id);
    StrayStepRefused(server, db, plan, i, before, step, fk, id);
  }

  lemma HoldingIsStray(server: Server, db: Database, backup: Snapshot, i: nat, before: set<DeleteStep>, fk: ForeignKey, id: Key)
    requires NoCascadesIn(server) && NoOrphans(server, db) && i < |DeletePlan(backup)|
    requires HoldsBack(server, db, backup, DeletePlan(backup)[i].table, fk, id)
    requires id in RowsIn(Kept(server, db, before + {DeletePlan(backup)[i]}), fk.child)
    ensures Stray(server, db, before, DeletePlan(backup)[i], fk, id)
  {
    var step := DeletePlan(backup)[i];
    PlanStep(backup, step);
    KeptIsInside(server, db, before + {step});
    SubRow(Kept(server, db, before + {step}), db, fk.child, id);
    assert step in StepsOf(DeletePlan(backup));
    TakesAimed(server, db, backup, {step}, step.table, Cell(RowsIn(db, fk.child)[id], fk.column).text);
  }

  /**
   After a commit the request's part of such a table is the backed-up part exactly when its DELETE was
   not stuck, or had nothing to remove; everything else in the table is as before.
   */
  lemma ReinsertedExactlyUnlessStuck(server: Server, db0: Database, db: Database, request: Key, backup: Snapshot, i: nat)
    requires IsBackup(db0, request, backup) && Consistent(server, db0)
    requires RequestSchema(server) && Closed(server, db)
    requires RestoreOnto(server, db, backup).Some? && i < |DeletePlan(backup)|
    requires DeletePlan(backup)[i].table in db
    ensures var table, where := DeletePlan(backup)[i].table, DeletePlan(backup)[i].where;
            var after := RowsIn(RestoreOnto(server, db, backup).value, table);
            && DeletePlanIndexed(backup, i)
            && Unselected(after, where) == Unselected(db[table], where)
            && (Selected(after, where) == Selected(RowsIn(db0, table), where) <==>
                !Stuck(server, db, backup, table) || Selected(db[table], where) == map[])
  {
    ReinsertedParts(server, db0, db, request, backup, i);
    AcceptedExactlyUnlessStuck(server, db, backup, i);
  }

  // ---------- tables that refer to the request ----------

  /** The request's own row is put back, so it had gone. */
  lemma RequestRowGoes(server: Server, db: Database, backup: Snapshot)
    requires RestoreOnto(server, db, backup).Some? && PassportBorrowRequests in db
    requires backup.request in Ids(RowsOf(backup, PassportBorrowRequests))
    ensures RunDeletes(server, db, DeletePlan(backup)).Some?
    ensures backup.request !in RowsIn(RunDeletes(server, db, DeletePlan(backup)).value, PassportBorrowRequests)
  {
    var mid := RunDeletes(server, db, DeletePlan(backup)).value;
    LoadPlanShape(backup);
    KeysKept(server, db, DeletePlan(backup));
    PlainLoad(server, mid, LoadPlan(backup), LoadRank(PassportBorrowRequests), PassportBorrowRequests,
              RowsOf(backup, PassportBorrowRequests));
    ImageKeys(server, PassportBorrowRequests, RowsOf(backup, PassportBorrowRequests));
  }

  /**
   Where a table's reference to the request is enforced, and the backup holds the request's row, a commit
   gives the backed-up part outright: rows left behind would have kept the request's row, and that row
   could not have been put back.
   */
  lemma KeyedByRequestRestored(server: Server, db0: Database, db: Database, request: Key, backup: Snapshot, table: Table)
    requires IsBackup(db0, request, backup) && Consistent(server, db0) && Closed(server, db)
    requires RestoreOnto(server, db, backup).Some? && PassportBorrowRequests in db && table in db
    requires request in Ids(RowsOf(backup, PassportBorrowRequests))
    requires OfRequest(table) && table != PassportBorrowRequests
    requires ForeignKey(table, RequestId, PassportBorrowRequests) in server.foreignKeys
    ensures Selected(RowsIn(RestoreOnto(server, db, backup).value, table), RequestWhere(request, table)) ==
            Selected(RowsIn(db0, table), RequestWhere(request, table))
  {
    var mid, where := RunDeletes(server, db, DeletePlan(backup)).value, RequestWhere(request, table);
    KeyedByRequestGoes(server, db, backup, table);
    ReinsertedOnto(server, db, backup, table);
    assert Lists(RowsOf(backup, table), Selected(RowsIn(db0, table), where));
    ImageOfBackup(server, db0, table, where, RowsOf(backup, table));
    SelectedOfUnion(RowsIn(mid, table), Selected(RowsIn(db0, table), where), where);
  }

  lemma ReinsertedOnto(server: Server, db: Database, backup: Snapshot, table: Table)
    requires RestoreOnto(server, db, backup).Some? && table in db && Managed(table) && table != Passports
    ensures var mid := RunDeletes(server, db, DeletePlan(backup)).value;
            && RowsIn(RestoreOnto(server, db, backup).value, table) == RowsIn(mid, table) + Image(server, table, RowsOf(backup, table))
            && Image(server, table, RowsOf(backup, table)).Keys !! RowsIn(mid, table).Keys
  {
    KeysKept(server, db, DeletePlan(backup));
    PlainLoadAt(backup, table);
    PlainLoad(server, RunDeletes(server, db, DeletePlan(backup)).value, LoadPlan(backup), LoadRank(table), table, RowsOf(backup, table));
  }

  lemma PlainLoadAt(backup: Snapshot, table: Table)
    requires Managed(table) && table != Passports
    ensures DistinctLoads(LoadPlan(backup)) && 0 <= LoadRank(table) < |LoadPlan(backup)|
    ensures LoadPlan(backup)[LoadRank(table)] == Load(table, RowsOf(backup, table), Plain)
  {
    LoadPlanShape(backup);
  }

  lemma PlainLoad(server: Server, mid: Database, loads: seq<Load>, k: nat, table: Table, rows: seq<Record>)
    requires DistinctLoads(loads) && RunLoads(server, mid, loads).Some?
    requires k < |loads| && loads[k] == Load(table, rows, Plain) && table in mid
    ensures RowsIn(RunLoads(server, mid, loads).value, table) == mid[table] + Image(server, table, rows)
    ensures Image(server, table, rows).Keys !! mid[table].Keys
  {
    LoadOf(server, mid, loads, k);
  }

  lemma KeyedByRequestGoes(server: Server, db: Database, backup: Snapshot, table: Table)
    requires Closed(server, db) && RestoreOnto(server, db, backup).Some? && PassportBorrowRequests in db
    requires backup.request in Ids(RowsOf(backup, PassportBorrowRequests))
    requires OfRequest(table) && table != PassportBorrowRequests
    requires ForeignKey(table, RequestId, PassportBorrowRequests) in server.foreignKeys
    ensures var mid := RunDeletes(server, db, DeletePlan(backup)).value;
            forall id | id in RowsIn(mid, table) :: !Matches(RequestWhere(backup.request, table), id, RowsIn(mid, table)[id])
  {
    var mid := RunDeletes(server, db, DeletePlan(backup)).value;
    var fk := ForeignKey(table, RequestId, PassportBorrowRequests);
    RequestRowGoes(server, db, backup);
    DeletesKeepClosed(server, db, DeletePlan(backup));
    assert Holds(fk, mid);
    NoParentNoChild(mid, fk, {backup.request});
  }

  /**
   This script writes every column back, so a backed-up row with a computed column is refused and
   the whole restore is rolled back. The meeting script strips those columns first.
   */
  lemma ComputedColumnRollsBack(server: Server, db: Database, backup: Snapshot, table: Table, row: Record)
    requires Managed(table) && table in db && row in RowsOf(backup, table)
    requires row.cells.Keys * server.computed(table) != {}
    ensures RestoreOnto(server, db, backup).None?
  {
    DeletePlanShape(backup);
    LoadPlanShape(backup);
    if RestoreOnto(server, db, backup).Some? {
      var mid := RunDeletes(server, db, DeletePlan(backup)).value;
      KeysKept(server, db, DeletePlan(backup));
      WrittenRowIsPlain(server, mid, LoadPlan(backup), LoadRank(table), row);
    }
  }

  lemma {:induction false} WrittenRowIsPlain(server: Server, db: Database, loads: seq<Load>, k: nat, row: Record)
    requires RunLoads(server, db, loads).Some? && k < |loads| && loads[k].table in db
    requires row in loads[k].rows && !loads[k].mode.SkipComputed?
    ensures row.cells.Keys * server.computed(loads[k].table) == {}
  {
    var n := |loads| - 1;
    if k < n {
      WrittenRowIsPlain(server, db, loads[..n], k, row);
    } else {
      WrittenRowsArePlain(server, RunLoads(server, db, loads[..n]).value, loads[k].table, loads[k].rows, loads[k].mode, row);
    }
  }

  lemma {:induction false} WrittenRowsArePlain(server: Server, db: Database, table: Table, rows: seq<Record>, mode: Mode, row: Record)
    requires table in db && WriteRows(server, db, table, rows, mode).Some?
    requires row in rows && !mode.SkipComputed?
    ensures row.cells.Keys * server.computed(table) == {}
  {
    var n := |rows| - 1;
    if row in rows[..n] {
      WrittenRowsArePlain(server, db, table, rows[..n], mode, row);
    } else {
      assert row == rows[n];
    }
  }
}
