/** Following restore programs through concrete databases. */
module SmallRuns {
  import opened Prelude
  import opened Relational
  import opened DeleteTheory

  /** Where one step of the delete phase leads. */
  predicate LeadsTo(server: Server, db: Database, step: DeleteStep, next: Database) {
    var after := TryDelete(server, db, step.table, step.where);
    if after.None? && step.tolerant then next == db else after == Some(next)
  }

  lemma {:induction false} RunLeads(server: Server, steps: seq<DeleteStep>, states: seq<Database>)
    requires |states| == |steps| + 1
    requires forall i | 0 <= i < |steps| :: LeadsTo(server, states[i], steps[i], states[i + 1])
    ensures RunDeletes(server, states[0], steps) == Some(states[|steps|])
  {
    if steps != [] {
      var n := |steps| - 1;
      RunLeads(server, steps[..n], states[..n + 1]);
      assert LeadsTo(server, states[n], steps[n], states[n + 1]);
    }
  }

  /** Without cascades a delete removes just the rows selected. */
  lemma PlainDelete(server: Server, db: Database, table: Table, where: Where)
    requires server.cascades == {} && table in db
    ensures Sweep(server, db[table := Unselected(db[table], where)]) == db[table := Unselected(db[table], where)]
  {
    var next := db[table := Unselected(db[table], where)];
    SweepLeavesNoOrphans(server, next);
    SweepIsGreatest(server, next, next);
    SubBothWays(next, Sweep(server, next));
  }

  /** A program of which one load alone has rows. */
  lemma {:induction false} OnlyOneLoads(server: Server, db: Database, loads: seq<Load>, one: nat, after: Database, k: nat)
    requires one < |loads| && k <= |loads| && RunLoad(server, db, loads[one]) == Some(after)
    requires forall i | 0 <= i < |loads| && i != one :: loads[i].rows == []
    ensures RunLoads(server, db, loads[..k]) == Some(if one < k then after else db)
  {
    if k > 0 {
      OnlyOneLoads(server, db, loads, one, after, k - 1);
      assert loads[..k][..k - 1] == loads[..k - 1];
    }
  }

  /** A server that enforces the given references and nothing else. */
  function Enforcing(keys: set<ForeignKey>): Server {
    Server(keys, {}, (table: Table) => {}, (table: Table, cells: Cells, column: Column) => Null, {})
  }
}
