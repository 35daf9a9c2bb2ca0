/**
 A small relational database, as far as the backup and restore scripts need one: tables keyed by
 `id`, foreign keys that refuse (NO ACTION) or cascade (ON DELETE CASCADE), computed columns, tables
 the login may not write, and statements that either succeed as a whole or change nothing.
 */
module Relational {
  import opened Prelude

  type Key = string

  datatype Table =
    | Meetings | OnlineMeetings | MeetingRecurrences | MeetingUnits | MeetingUnitSeats
    | MeetingParticipants | MeetingGuests | MeetingTasks
    | WorkItems | Audit | DocumentComments | Files | FileRelations
    | Passports | PassportBorrowRequests | PassportDelegationItems | PassportHistories
    | PassportVouchers | PassportVoucherItems
    | OtherTable(name: string)

  datatype Column =
    | MeetingId | DocumentId | MeetingUnitId | OnlineMeetingId | ObjectId | ObjectType | FileId
    | RequestId | PassportId
    | OtherColumn(name: string)

  datatype Value = Null | Text(text: string)

  type Cells = map<Column, Value>
  type Rows = map<Key, Cells>

  /** A table exists exactly when it is a key of the map. */
  type Database = map<Table, Rows>

  /** One element of a recordset. */
  datatype Record = Record(id: Key, cells: Cells)

  datatype ForeignKey = ForeignKey(child: Table, column: Column, parent: Table)

  /**
   What the server enforces: foreign keys, which of them delete the referring rows along with the row
   referred to, computed columns, and tables that refuse writes.
   */
  datatype Server = Server(
    foreignKeys: set<ForeignKey>,
    cascades: set<ForeignKey>,
    computed: Table -> set<Column>,
    derive: (Table, Cells, Column) -> Value,
    frozen: set<Table>)

  function Cell(cells: Cells, column: Column): Value {
    if column in cells then cells[column] else Null
  }

  datatype Where =
    | IdIn(ids: set<Key>)
    | ColumnIn(column: Column, values: set<string>)
    | Both(left: Where, right: Where)
    | Either(left: Where, right: Where)

  predicate Matches(where: Where, id: Key, cells: Cells) {
    match where
    case IdIn(ids) => id in ids
    case ColumnIn(column, values) => Cell(cells, column).Text? && Cell(cells, column).text in values
    case Both(l, r) => Matches(l, id, cells) && Matches(r, id, cells)
    case Either(l, r) => Matches(l, id, cells) || Matches(r, id, cells)
  }

  function Selected(rows: Rows, where: Where): Rows {
    map id | id in rows && Matches(where, id, rows[id]) :: rows[id]
  }

  function Unselected(rows: Rows, where: Where): Rows {
    map id | id in rows && !Matches(where, id, rows[id]) :: rows[id]
  }

  /** The rows of a table, a missing table having none. */
  function RowsIn(db: Database, table: Table): Rows {
    if table in db then db[table] else map[]
  }

  /** The row of the table under the id has this text in the column. */
  ghost predicate Has(db: Database, table: Table, id: Key, column: Column, text: string) {
    table in db && id in db[table] && column in db[table][id] && db[table][id][column] == Text(text)
  }

  // ---------- integrity ----------

  predicate Holds(fk: ForeignKey, db: Database) {
    forall id | id in RowsIn(db, fk.child) && Cell(RowsIn(db, fk.child)[id], fk.column).Text? ::
      Cell(RowsIn(db, fk.child)[id], fk.column).text in RowsIn(db, fk.parent)
  }

  predicate Closed(server: Server, db: Database) {
    forall fk | fk in server.foreignKeys :: Holds(fk, db)
  }

  /** What the server stores for the given cells: computed columns are always recomputed. */
  function Stored(server: Server, table: Table, cells: Cells): Cells {
    var base := cells - server.computed(table);
    base + (map c | c in server.computed(table) :: server.derive(table, base, c))
  }

  /** Every stored row carries the computed values of its own base columns. */
  ghost predicate Consistent(server: Server, db: Database) {
    forall table, id | table in db && id in db[table] :: db[table][id] == Stored(server, table, db[table][id])
  }

  // ---------- cascading deletes ----------

  datatype RowName = RowName(table: Table, id: Key)

  function Names(db: Database): set<RowName> {
    set table, id | table in db && id in db[table] :: RowName(table, id)
  }

  /** The row refers through a cascading key to a row that is not there. */
  predicate Orphaned(server: Server, db: Database, table: Table, cells: Cells) {
    exists fk | fk in server.foreignKeys ::
      && fk in server.cascades && fk.child == table
      && Cell(cells, fk.column).Text? && Cell(cells, fk.column).text !in RowsIn(db, fk.parent)
  }

  function WithoutOrphans(server: Server, db: Database): Database {
    map table | table in db ::
      map id | id in db[table] && !Orphaned(server, db, table, db[table][id]) :: db[table][id]
  }

  lemma FewerNames(server: Server, db: Database)
    ensures WithoutOrphans(server, db) != db ==> Names(WithoutOrphans(server, db)) < Names(db)
  {
    var next := WithoutOrphans(server, db);
    if Names(next) == Names(db) {
      forall table | table in db ensures next[table] == db[table] {
        assert forall id | id in db[table] :: RowName(table, id) in Names(next);
      }
    }
  }

  /** What is left when rows whose parent went are removed, and the rows that refer to those, and so on. */
  function Sweep(server: Server, db: Database): Database
    decreases Names(db)
  {
    FewerNames(server, db);
    var next := WithoutOrphans(server, db);
    if next == db then db else Sweep(server, next)
  }

  // ---------- statements ----------

  /** Cascades run to the end before the keys that refuse are checked. */
  function TryDelete(server: Server, db: Database, table: Table, where: Where): Option<Database> {
    if table !in db || table in server.frozen then None
    else
      var after := Sweep(server, db[table := Unselected(db[table], where)]);
      if Closed(server, after) then Some(after) else None
  }

  function TryInsert(server: Server, db: Database, table: Table, row: Record): Option<Database> {
    if table !in db || table in server.frozen || row.id in db[table]
       || row.cells.Keys * server.computed(table) != {} then None
    else
      var after := db[table := db[table][row.id := Stored(server, table, row.cells)]];
      if Closed(server, after) then Some(after) else None
  }

  /** UPDATE ... SET the given columns WHERE id = row.id, for a row that exists. */
  function TryUpdate(server: Server, db: Database, table: Table, row: Record): Option<Database>
    requires table in db && row.id in db[table]
  {
    if table in server.frozen || row.cells.Keys * server.computed(table) != {} then None
    else
      var after := db[table := db[table][row.id := Stored(server, table, db[table][row.id] + row.cells)]];
      if Closed(server, after) then Some(after) else None
  }

  // ---------- restore programs ----------

  /** One DELETE of the delete phase. `tolerant` when the script catches its error and goes on. */
  datatype DeleteStep = DeleteStep(table: Table, where: Where, tolerant: bool)

  /** How the rows of one table are written back. */
  datatype Mode = Plain | SkipComputed | Upsert

  datatype Load = Load(table: Table, rows: seq<Record>, mode: Mode)

  function RunDeletes(server: Server, db: Database, steps: seq<DeleteStep>): Option<Database> {
    if steps == [] then Some(db)
    else
      var n := |steps| - 1;
      match RunDeletes(server, db, steps[..n])
      case None => None
      case Some(mid) =>
        var after := TryDelete(server, mid, steps[n].table, steps[n].where);
        if after.None? && steps[n].tolerant then Some(mid) else after
  }

  function WriteRow(server: Server, db: Database, table: Table, row: Record, mode: Mode): Option<Database>
    requires table in db
  {
    match mode
    case Plain => TryInsert(server, db, table, row)
    case SkipComputed =>
      TryInsert(server, db, table, Record(row.id, row.cells - server.computed(table)))
    case Upsert =>
      if row.id in db[table] then TryUpdate(server, db, table, row) else TryInsert(server, db, table, row)
  }

  function WriteRows(server: Server, db: Database, table: Table, rows: seq<Record>, mode: Mode): (r: Option<Database>)
    requires table in db
    ensures r.Some? ==> r.value.Keys == db.Keys
  {
    if rows == [] then Some(db)
    else
      var n := |rows| - 1;
      var mid := WriteRows(server, db, table, rows[..n], mode);
      if mid.None? then None else WriteRow(server, mid.value, table, rows[n], mode)
  }

  /** A table that does not exist, or has nothing backed up, is skipped. */
  function RunLoad(server: Server, db: Database, load: Load): (r: Option<Database>)
    ensures r.Some? ==> r.value.Keys == db.Keys
  {
    if load.rows == [] || load.table !in db then Some(db)
    else WriteRows(server, db, load.table, load.rows, load.mode)
  }

  function RunLoads(server: Server, db: Database, loads: seq<Load>): (r: Option<Database>)
    ensures r.Some? ==> r.value.Keys == db.Keys
  {
    if loads == [] then Some(db)
    else
      var n := |loads| - 1;
      var mid := RunLoads(server, db, loads[..n]);
      if mid.None? then None else RunLoad(server, mid.value, loads[n])
  }

  /** The whole transaction: None when it is rolled back. */
  function Restore(server: Server, db: Database, deletes: seq<DeleteStep>, loads: seq<Load>): Option<Database> {
    match RunDeletes(server, db, deletes)
    case None => None
    case Some(mid) => RunLoads(server, mid, loads)
  }

  /** The database after the transaction ended, either way. */
  function AfterRestore(server: Server, db: Database, deletes: seq<DeleteStep>, loads: seq<Load>): Database {
    match Restore(server, db, deletes, loads)
    case None => db
    case Some(after) => after
  }
}
