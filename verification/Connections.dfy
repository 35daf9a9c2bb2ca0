/** A connection to the database: the statements the scripts issue, each tied to the engine's step. */
module Connections {
  import opened Prelude
  import opened Relational
  import opened DeleteTheory
  import opened RestoreTheory

  /** A recordset in some order: every row once. */
  ghost predicate Lists(rows: seq<Record>, content: Rows) {
    && DistinctIds(rows)
    && (forall id | id in content :: Record(id, content[id]) in rows)
    && (forall row | row in rows :: row.id in content && content[row.id] == row.cells)
  }

  function Ids(rows: seq<Record>): set<Key> {
    set row | row in rows :: row.id
  }

  lemma ListsIds(rows: seq<Record>, content: Rows)
    requires Lists(rows, content)
    ensures Ids(rows) == content.Keys
  {
  }

  /** Reinserting a recordset gives back the very rows it was read from. */
  lemma ImageOfBackup(server: Server, db0: Database, table: Table, where: Where, rows: seq<Record>)
    requires Consistent(server, db0) && Lists(rows, Selected(RowsIn(db0, table), where))
    ensures Image(server, table, rows) == Selected(RowsIn(db0, table), where)
  {
    var content := Selected(RowsIn(db0, table), where);
    ImageKeys(server, table, rows);
    forall id | id in content ensures id in Image(server, table, rows) && Image(server, table, rows)[id] == content[id] {
      var i :| 0 <= i < |rows| && rows[i] == Record(id, content[id]);
      ImageAt(server, table, rows, i);
    }
    forall id | id in Image(server, table, rows) ensures id in content {
      var i :| 0 <= i < |rows| && rows[i].id == id;
      assert rows[i] in rows;
    }
  }

  function Found(data: map<Table, seq<Record>>, table: Table): seq<Record> {
    if table in data then data[table] else []
  }

  class Connection {
    const server: Server
    var tables: Database

    constructor (server: Server, tables: Database)
      ensures this.server == server && this.tables == tables
    {
      this.server := server;
      this.tables := tables;
    }

    /** SELECT * FROM table WHERE ..., in whatever order the server likes. */
    method Select(table: Table, where: Where) returns (rows: seq<Record>)
      requires table in tables
      ensures Lists(rows, Selected(tables[table], where))
    {
      var content := Selected(tables[table], where);
      var left := content.Keys;
      rows := [];
      while left != {}
        invariant left <= content.Keys
        invariant DistinctIds(rows)
        invariant forall id | id in content && id !in left :: Record(id, content[id]) in rows
        invariant forall row | row in rows :: row.id in content && row.id !in left && content[row.id] == row.cells
        decreases left
      {
        var id :| id in left;
        assert forall i | 0 <= i < |rows| :: rows[i] in rows;
        rows := rows + [Record(id, content[id])];
        left := left - {id};
      }
    }

    /** Issues one DELETE; `ok` is false when its error reaches the script. */
    method Delete(ghost start: Database, ghost done: seq<DeleteStep>, step: DeleteStep) returns (ok: bool)
      requires RunDeletes(server, start, done) == Some(tables)
      modifies this`tables
      ensures ok ==> RunDeletes(server, start, done + [step]) == Some(tables)
      ensures !ok ==> RunDeletes(server, start, done + [step]).None?
    {
      assert (done + [step])[..|done|] == done;
      var after := TryDelete(server, tables, step.table, step.where);
      ok := after.Some? || step.tolerant;
      if after.Some? {
        tables := after.value;
      }
    }

    /** Issues the given steps in turn; `plan` is the whole program they are part of. */
    method DeleteAll(ghost start: Database, ghost done: seq<DeleteStep>, steps: seq<DeleteStep>,
                      ghost plan: seq<DeleteStep>)
      returns (ok: bool, ghost finished: seq<DeleteStep>)
      requires RunDeletes(server, start, done) == Some(tables)
      requires done + steps <= plan
      modifies this`tables
      ensures finished == done + steps
      ensures ok ==> RunDeletes(server, start, finished) == Some(tables)
      ensures !ok ==> RunDeletes(server, start, plan).None?
    {
      var i := 0;
      ok := true;
      finished := done + steps;
      assert done + steps[..0] == done;
      while i < |steps|
        invariant 0 <= i <= |steps|
        invariant RunDeletes(server, start, done + steps[..i]) == Some(tables)
      {
        ghost var next := done + steps[..i] + [steps[i]];
        assert next == done + steps[..i + 1];
        ok := Delete(start, done + steps[..i], steps[i]);
        if !ok {
          assert next <= plan && plan == next + plan[|next|..];
          DeletesStop(server, start, next, plan[|next|..]);
          return;
        }
        i := i + 1;
      }
      assert steps[..i] == steps;
    }

    /** The recordset of a table the script reads, kept only when the read succeeds. */
    method ReadInto(data: map<Table, seq<Record>>, table: Table, where: Where)
      returns (result: map<Table, seq<Record>>)
      ensures result.Keys == data.Keys + (if table in tables then {table} else {})
      ensures forall t | t != table :: Found(result, t) == Found(data, t)
      ensures table !in data || table in tables ==> Lists(Found(result, table), Selected(RowsIn(tables, table), where))
    {
      result := data;
      if table in tables {
        var rows := Select(table, where);
        result := data[table := rows];
      }
    }

    /** Reads tables in the given order, each kept only when its read succeeds. */
    method ReadTables(before: map<Table, seq<Record>>, order: seq<Table>, where: Table -> Where)
      returns (data: map<Table, seq<Record>>)
      requires forall i, j | 0 <= i < j < |order| :: order[i] != order[j]
      requires forall t | t in order :: t !in before
      ensures forall t | t in data :: t in before || t in order
      ensures forall t | t !in order :: Found(data, t) == Found(before, t)
      ensures forall t | t in order :: Lists(Found(data, t), Selected(RowsIn(tables, t), where(t)))
    {
      data := before;
      var i := 0;
      while i < |order|
        invariant 0 <= i <= |order|
        invariant forall t | t in data :: t in before || t in order[..i]
        invariant forall t | t !in order[..i] :: Found(data, t) == Found(before, t)
        invariant forall t | t in order[..i] :: Lists(Found(data, t), Selected(RowsIn(tables, t), where(t)))
      {
        var table := order[i];
        assert order[..i + 1] == order[..i] + [table];
        assert table in order && table !in order[..i] && table !in data;
        data := ReadInto(data, table, where(table));
        i := i + 1;
      }
      assert order[..i] == order;
    }

    /** Writes one recordset back, row by row, stopping at the first error. */
    method WriteAll(ghost start: Database, ghost done: seq<Load>, load: Load) returns (ok: bool)
      requires RunLoads(server, start, done) == Some(tables)
      modifies this`tables
      ensures ok ==> RunLoads(server, start, done + [load]) == Some(tables)
      ensures !ok ==> RunLoads(server, start, done + [load]).None?
    {
      assert (done + [load])[..|done|] == done;
      if load.rows == [] || load.table !in tables {
        return true;
      }
      ghost var before := tables;
      var i := 0;
      while i < |load.rows|
        invariant 0 <= i <= |load.rows|
        invariant load.table in before
        invariant WriteRows(server, before, load.table, load.rows[..i], load.mode) == Some(tables)
      {
        assert load.rows[..i + 1][..i] == load.rows[..i];
        var after := WriteRow(server, tables, load.table, load.rows[i], load.mode);
        if after.None? {
          WriteStops(server, before, load.table, load.rows, load.mode, i + 1);
          return false;
        }
        tables := after.value;
        i := i + 1;
      }
      assert load.rows[..i] == load.rows;
      ok := true;
    }
  }

  lemma WriteStops(server: Server, db: Database, table: Table, rows: seq<Record>, mode: Mode, i: nat)
    requires table in db && i <= |rows| && WriteRows(server, db, table, rows[..i], mode).None?
    ensures WriteRows(server, db, table, rows, mode).None?
  {
    if WriteRows(server, db, table, rows, mode).Some? {
      RowsReachPrefix(server, db, table, rows, mode, i);
    }
  }

  lemma DeletesStop(server: Server, db: Database, done: seq<DeleteStep>, rest: seq<DeleteStep>)
    requires RunDeletes(server, db, done).None?
    ensures RunDeletes(server, db, done + rest).None?
  {
    assert (done + rest)[..|done|] == done;
    if RunDeletes(server, db, done + rest).Some? {
      DeletesReachPrefix(server, db, done + rest, |done|);
    }
  }

  lemma LoadsStop(server: Server, db: Database, loads: seq<Load>, i: nat)
    requires i <= |loads| && RunLoads(server, db, loads[..i]).None?
    ensures RunLoads(server, db, loads).None?
  {
    if RunLoads(server, db, loads).Some? {
      LoadsReachPrefix(server, db, loads, i);
    }
  }
}
