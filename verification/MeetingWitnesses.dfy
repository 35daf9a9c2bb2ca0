/**
 Concrete databases on which the restore of a meeting leaves rows behind, or does something else when
 it is run again.
 */
module MeetingWitnesses {
  import opened Prelude
  import opened Relational
  import opened DeleteTheory
  import opened RestoreTheory
  import opened Connections
  import opened MeetingBackup
  import opened MeetingKeys
  import opened MeetingReady
  import opened MeetingRestore
  import opened MeetingAgain
  import opened SmallRuns

  // ---------- a meeting without anything attached ----------

  const M: Key := "m"

  /** The backup of a meeting that had nothing attached. */
  const BARE := Snapshot(M, map[Meetings := [Record(M, map[])]])

  lemma BareBackup(server: Server, db0: Database)
    requires forall table :: server.computed(table) == {}
    requires Meetings in db0 && db0[Meetings] == map[M := map[]]
    requires forall table | table in db0 && table != Meetings :: db0[table] == map[]
    ensures Taken(server, db0, M, BARE)
  {
    assert Stored(server, Meetings, map[]) == map[];
    assert Selected(db0[Meetings], IdIn({M})) == db0[Meetings];
    forall table | Managed(table) ensures Lists(RowsOf(BARE, table), Slice(db0, M, table)) {
      if table != Meetings {
        assert RowsIn(db0, table) == map[];
        assert Slice(db0, M, table) == map[];
      }
    }
  }

  lemma BarePlan()
    ensures DeletePlan(BARE) == DirectSteps(M) + [DeleteStep(Meetings, IdIn({M}), false)]
    ensures forall k | 1 <= k < 12 :: LoadPlan(BARE)[k].rows == []
    ensures |LoadPlan(BARE)| == 12 && LoadPlan(BARE)[0] == Load(Meetings, [Record(M, map[])], SkipComputed)
  {
    LoadPlanShape(BARE);
    assert UnitSteps(BARE) == [] && FileSteps(BARE) == [];
    assert LoadRank(Meetings) == 0;
    forall k | 1 <= k < 12 ensures LoadPlan(BARE)[k].rows == [] {
      assert LoadRank(LoadPlan(BARE)[k].table) == k;
      assert LoadPlan(BARE)[k] == Load(INSERT_ORDER[k], RowsOf(BARE, INSERT_ORDER[k]), SkipComputed);
    }
  }

  /** Restoring it onto a database whose direct tables lead from `db` to `mid`, and where the rest goes through. */
  lemma RestoreBare(server: Server, db: Database, mid: Database, states: seq<Database>)
    requires |states| == 8 && states[0] == db && states[7] == mid && Meetings in mid
    requires forall i | 0 <= i < 7 :: LeadsTo(server, states[i], DirectStep(M, DELETE_ORDER[i]), states[i + 1])
    requires TryDelete(server, mid, Meetings, IdIn({M})) == Some(mid[Meetings := map[]])
    requires TryInsert(server, mid[Meetings := map[]], Meetings, Record(M, map[])) == Some(mid[Meetings := map[M := map[]]])
    ensures RestoreOnto(server, db, BARE) == Some(mid[Meetings := map[M := map[]]])
  {
    var plan, loads, all := DeletePlan(BARE), LoadPlan(BARE), states + [mid[Meetings := map[]]];
    BarePlan();
    RunLeads(server, plan, all);
    var row := Record(M, map[]);
    assert [row][..0] == [];
    assert row.cells - server.computed(Meetings) == row.cells;
    assert WriteRows(server, mid[Meetings := map[]], Meetings, [row], SkipComputed) == Some(mid[Meetings := map[M := map[]]]);
    OnlyOneLoads(server, mid[Meetings := map[]], loads, 0, mid[Meetings := map[M := map[]]], 12);
    assert loads[..12] == loads;
  }

  // ---------- a row left behind ----------

  const NOTES := OtherTable("notes")

  /** A table of notes refers to the table. */
  function Noted(table: Table): Server {
    Enforcing({ForeignKey(NOTES, OtherColumn("row_id"), table)})
  }

  function BeforeNote(table: Table): Database {
    map[Meetings := map[M := map[]], table := map[], NOTES := map[]]
  }

  /** After the backup the meeting got a row in the table, and somebody's note refers to it. */
  function AfterNote(table: Table): Database {
    map[Meetings := map[M := map[]],
        table := map["w" := map[DocumentId := Text(M)]],
        NOTES := map["n" := map[OtherColumn("row_id") := Text("w")]]]
  }

  lemma NotedIsRefused(table: Table)
    requires table == WorkItems || table == Audit
    ensures Closed(Noted(table), AfterNote(table))
    ensures TryDelete(Noted(table), AfterNote(table), table, ColumnIn(DocumentId, {M})).None?
  {
    var server, db, where := Noted(table), AfterNote(table), ColumnIn(DocumentId, {M});
    var fk := ForeignKey(NOTES, OtherColumn("row_id"), table);
    var after := db[table := Unselected(db[table], where)];
    PlainDelete(server, db, table, where);
    assert Matches(where, "w", db[table]["w"]) && after[table] == map[];
    assert "n" in RowsIn(after, NOTES) && Cell(RowsIn(after, NOTES)["n"], fk.column) == Text("w");
    assert !Holds(fk, after) && fk in server.foreignKeys;
  }

  lemma MeetingRowGoes(server: Server, mid: Database)
    requires server.cascades == {} && server.frozen == {} && Meetings in mid && mid[Meetings].Keys == {M}
    requires Closed(server, mid[Meetings := map[]])
    ensures TryDelete(server, mid, Meetings, IdIn({M})) == Some(mid[Meetings := map[]])
  {
    PlainDelete(server, mid, Meetings, IdIn({M}));
    assert Unselected(mid[Meetings], IdIn({M})) == map[];
  }

  lemma BareRowComesBack(server: Server, mid: Database)
    requires server.computed(Meetings) == {} && server.frozen == {} && Meetings in mid
    requires Closed(server, mid[Meetings := map[M := map[]]])
    ensures TryInsert(server, mid[Meetings := map[]], Meetings, Record(M, map[])) == Some(mid[Meetings := map[M := map[]]])
  {
    var start, row := mid[Meetings := map[]], Record(M, map[]);
    assert Stored(server, Meetings, row.cells) == map[];
    assert start[Meetings := start[Meetings][M := map[]]] == mid[Meetings := map[M := map[]]];
  }

  lemma NotedRun(table: Table)
    requires table == WorkItems || table == Audit
    ensures RestoreOnto(Noted(table), AfterNote(table), BARE) == Some(AfterNote(table))
  {
    var server, db := Noted(table), AfterNote(table);
    NotedIsRefused(table);
    var states := seq(8, i => db);
    forall i | 0 <= i < 7 ensures LeadsTo(server, states[i], DirectStep(M, DELETE_ORDER[i]), states[i + 1]) {
      NotedStep(table, DELETE_ORDER[i]);
    }
    assert db[Meetings := map[M := map[]]] == db;
    NotedMeetingGoes(table);
    MeetingRowGoes(server, db);
    BareRowComesBack(server, db);
    RestoreBare(server, db, db, states);
  }

  lemma NotedMeetingGoes(table: Table)
    requires table == WorkItems || table == Audit
    ensures Closed(Noted(table), AfterNote(table)[Meetings := map[]])
  {
    NotedIsRefused(table);
    var fk := ForeignKey(NOTES, OtherColumn("row_id"), table);
    assert Holds(fk, AfterNote(table));
  }

  /** The restore commits, and the row added since the backup is still there. */
  lemma RowLeftBehind(table: Table)
    requires table == WorkItems || table == Audit
    ensures Closed(Noted(table), AfterNote(table)) && Taken(Noted(table), BeforeNote(table), M, BARE)
    ensures RestoreOnto(Noted(table), AfterNote(table), BARE) == Some(AfterNote(table))
    ensures Selected(AfterNote(table)[table], PlanWhere(BARE, table)) != Slice(BeforeNote(table), M, table)
  {
    BareBackup(Noted(table), BeforeNote(table));
    NotedIsRefused(table);
    NotedRun(table);
    var rows := AfterNote(table)[table];
    assert Matches(PlanWhere(BARE, table), "w", rows["w"]);
    assert "w" in Selected(rows, PlanWhere(BARE, table));
    assert BeforeNote(table)[table] == map[];
  }

  lemma NotedStep(table: Table, other: Table)
    requires table == WorkItems || table == Audit
    requires Direct(other)
    ensures LeadsTo(Noted(table), AfterNote(table), DirectStep(M, other), AfterNote(table))
  {
    if other == table {
      NotedIsRefused(table);
    }
  }

  // ---------- a second restore that changes something ----------

  const LINKED := Enforcing({ONLINE_LINK})

  const BEFORE_LINK: Database := map[Meetings := map[M := map[]], OnlineMeetings := map[]]

  /** After the backup the meeting got an online meeting. */
  const AFTER_LINK: Database :=
    map[Meetings := map[M := map[OnlineMeetingId := Text("o")]],
        OnlineMeetings := map["o" := map[MeetingId := Text(M)]]]

  /** The first restore has to leave it. */
  const ONCE: Database := map[Meetings := map[M := map[]], OnlineMeetings := map["o" := map[MeetingId := Text(M)]]]

  lemma LinkHolds()
    ensures Closed(LINKED, AFTER_LINK) && Closed(LINKED, ONCE)
    ensures TryDelete(LINKED, AFTER_LINK, OnlineMeetings, ColumnIn(MeetingId, {M})).None?
    ensures TryDelete(LINKED, ONCE, OnlineMeetings, ColumnIn(MeetingId, {M})) == Some(BEFORE_LINK)
  {
    var where := ColumnIn(MeetingId, {M});
    PlainDelete(LINKED, AFTER_LINK, OnlineMeetings, where);
    PlainDelete(LINKED, ONCE, OnlineMeetings, where);
    assert Matches(where, "o", AFTER_LINK[OnlineMeetings]["o"]);
    assert Unselected(AFTER_LINK[OnlineMeetings], where) == map[];
    var after := AFTER_LINK[OnlineMeetings := map[]];
    assert M in RowsIn(after, Meetings) && Cell(RowsIn(after, Meetings)[M], OnlineMeetingId) == Text("o");
    assert !Holds(ONLINE_LINK, after);
    assert ONCE[OnlineMeetings := map[]] == BEFORE_LINK;
  }

  lemma LinkStep(db: Database, other: Table)
    requires db.Keys == {Meetings, OnlineMeetings} && Direct(other) && other != OnlineMeetings
    ensures LeadsTo(LINKED, db, DirectStep(M, other), db)
  {
  }

  /** Along the direct tables only the delete of online meetings does anything. */
  lemma LinkSteps(db: Database, mid: Database, states: seq<Database>)
    requires db.Keys == {Meetings, OnlineMeetings} && mid.Keys == db.Keys
    requires LeadsTo(LINKED, db, DirectStep(M, OnlineMeetings), mid)
    requires states == seq(8, (i: int) => if i <= 2 then db else mid)
    ensures forall i | 0 <= i < 7 :: LeadsTo(LINKED, states[i], DirectStep(M, DELETE_ORDER[i]), states[i + 1])
  {
    forall i | 0 <= i < 7 ensures LeadsTo(LINKED, states[i], DirectStep(M, DELETE_ORDER[i]), states[i + 1]) {
      if i != 2 {
        LinkStep(states[i], DELETE_ORDER[i]);
      }
    }
  }

  lemma LinkMeetingTurns(mid: Database)
    requires mid == AFTER_LINK || mid == BEFORE_LINK
    ensures TryDelete(LINKED, mid, Meetings, IdIn({M})) == Some(mid[Meetings := map[]])
    ensures TryInsert(LINKED, mid[Meetings := map[]], Meetings, Record(M, map[])) == Some(mid[Meetings := map[M := map[]]])
  {
    MeetingRowGoes(LINKED, mid);
    BareRowComesBack(LINKED, mid);
  }

  lemma LinkRun(db: Database, mid: Database)
    requires db.Keys == {Meetings, OnlineMeetings} && (mid == AFTER_LINK || mid == BEFORE_LINK)
    requires LeadsTo(LINKED, db, DirectStep(M, OnlineMeetings), mid)
    ensures RestoreOnto(LINKED, db, BARE) == Some(mid[Meetings := map[M := map[]]])
  {
    var states := seq(8, (i: int) => if i <= 2 then db else mid);
    LinkSteps(db, mid, states);
    LinkMeetingTurns(mid);
    RestoreBare(LINKED, db, mid, states);
  }

  lemma LinkLeads()
    ensures LeadsTo(LINKED, AFTER_LINK, DirectStep(M, OnlineMeetings), AFTER_LINK)
    ensures LeadsTo(LINKED, ONCE, DirectStep(M, OnlineMeetings), BEFORE_LINK)
  {
    LinkHolds();
  }

  lemma LinkResults()
    ensures AFTER_LINK[Meetings := map[M := map[]]] == ONCE
    ensures BEFORE_LINK[Meetings := map[M := map[]]] == BEFORE_LINK
  {
  }

  /** Two restores of one backup in a row, both committed: the second removes what the first left. */
  lemma SecondRestoreRemoves()
    ensures MeetingSchema(LINKED) && Closed(LINKED, AFTER_LINK) && Taken(LINKED, BEFORE_LINK, M, BARE)
    ensures RestoreOnto(LINKED, AFTER_LINK, BARE) == Some(ONCE)
    ensures RestoreOnto(LINKED, ONCE, BARE) == Some(BEFORE_LINK) && ONCE != BEFORE_LINK
  {
    BareBackup(LINKED, BEFORE_LINK);
    LinkHolds();
    LinkLeads();
    LinkResults();
    LinkRun(AFTER_LINK, AFTER_LINK);
    LinkRun(ONCE, BEFORE_LINK);
    assert "o" in ONCE[OnlineMeetings] && "o" !in BEFORE_LINK[OnlineMeetings];
  }
}
