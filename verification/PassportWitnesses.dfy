/** A concrete database on which the restore of a passport request commits and leaves a row behind. */
module PassportWitnesses {
  import opened Prelude
  import opened Relational
  import opened DeleteTheory
  import opened RestoreTheory
  import opened Connections
  import opened PassportBackup
  import opened SmallRuns

  const R: Key := "r"
  const NOTES := OtherTable("notes")

  /** A table of notes refers to work items. */
  const NOTE_KEY := ForeignKey(NOTES, OtherColumn("row_id"), WorkItems)
  const NOTED := Enforcing({NOTE_KEY})

  const BARE := Snapshot(R, map[PassportBorrowRequests := [Record(R, map[])]])

  const BEFORE: Database := map[PassportBorrowRequests := map[R := map[]], WorkItems := map[], NOTES := map[]]

  /** After the backup the request got a work item, and somebody's note refers to it. */
  const AFTER: Database :=
    map[PassportBorrowRequests := map[R := map[]],
        WorkItems := map["w" := map[DocumentId := Text(R)]],
        NOTES := map["n" := map[OtherColumn("row_id") := Text("w")]]]

  lemma BareLists(table: Table)
    requires Managed(table)
    ensures Lists(RowsOf(BARE, table), Selected(RowsIn(BEFORE, table), ReadWhere(BARE, table)))
  {
    if table == PassportBorrowRequests {
      assert Selected(BEFORE[table], IdIn({R})) == BEFORE[table];
    } else {
      assert RowsIn(BEFORE, table) == map[];
    }
  }

  lemma BareBackup()
    ensures IsBackup(BEFORE, R, BARE) && Consistent(NOTED, BEFORE)
  {
    assert Stored(NOTED, PassportBorrowRequests, map[]) == map[];
    forall table | Managed(table)
      ensures Lists(RowsOf(BARE, table), Selected(RowsIn(BEFORE, table), ReadWhere(BARE, table)))
    {
      BareLists(table);
    }
  }

  lemma NotedIsRefused()
    ensures Closed(NOTED, AFTER)
    ensures TryDelete(NOTED, AFTER, WorkItems, ReadWhere(BARE, WorkItems)).None?
    ensures "w" in Selected(AFTER[WorkItems], ReadWhere(BARE, WorkItems))
  {
    var where := ReadWhere(BARE, WorkItems);
    PlainDelete(NOTED, AFTER, WorkItems, where);
    assert Matches(where, "w", AFTER[WorkItems]["w"]);
    var after := AFTER[WorkItems := Unselected(AFTER[WorkItems], where)];
    assert after[WorkItems] == map[];
    assert "n" in RowsIn(after, NOTES) && Cell(RowsIn(after, NOTES)["n"], NOTE_KEY.column) == Text("w");
    assert !Holds(NOTE_KEY, after);
  }

  const WITHOUT: Database := AFTER[PassportBorrowRequests := map[]]

  lemma WithoutIsClosed()
    ensures Closed(NOTED, WITHOUT)
  {
    NotedIsRefused();
    assert Holds(NOTE_KEY, AFTER);
  }

  lemma RequestGoes(db: Database)
    requires PassportBorrowRequests in db && db[PassportBorrowRequests].Keys == {R}
    requires Closed(NOTED, db[PassportBorrowRequests := map[]])
    ensures TryDelete(NOTED, db, PassportBorrowRequests, IdIn({R})) == Some(db[PassportBorrowRequests := map[]])
  {
    PlainDelete(NOTED, db, PassportBorrowRequests, IdIn({R}));
    assert Unselected(db[PassportBorrowRequests], IdIn({R})) == map[];
  }

  lemma RequestComesBack(db: Database)
    requires PassportBorrowRequests in db && db[PassportBorrowRequests] == map[R := map[]] && Closed(NOTED, db)
    ensures TryInsert(NOTED, db[PassportBorrowRequests := map[]], PassportBorrowRequests, Record(R, map[])) == Some(db)
  {
    var start := db[PassportBorrowRequests := map[]];
    assert Stored(NOTED, PassportBorrowRequests, map[]) == map[];
    assert start[PassportBorrowRequests := start[PassportBorrowRequests][R := map[]]] == db;
  }

  lemma RequestTurns()
    ensures TryDelete(NOTED, AFTER, PassportBorrowRequests, IdIn({R})) == Some(WITHOUT)
    ensures TryInsert(NOTED, WITHOUT, PassportBorrowRequests, Record(R, map[])) == Some(AFTER)
  {
    NotedIsRefused();
    WithoutIsClosed();
    RequestGoes(AFTER);
    RequestComesBack(AFTER);
  }

  lemma NotedStep(table: Table, db: Database, next: Database)
    requires 0 <= DeleteRank(table) < 9
    requires db == AFTER && next == if table == PassportBorrowRequests then WITHOUT else AFTER
    ensures LeadsTo(NOTED, db, StepOf(BARE, table), next)
  {
    if table == WorkItems {
      NotedIsRefused();
    } else if table == PassportBorrowRequests {
      RequestTurns();
    }
  }

  lemma BarePlan()
    ensures DeletePlan(BARE) == OrderedSteps(BARE)
    ensures |LoadPlan(BARE)| == 11 && LoadPlan(BARE)[1] == Load(PassportBorrowRequests, [Record(R, map[])], Plain)
    ensures forall k | 0 <= k < 11 && k != 1 :: LoadPlan(BARE)[k].rows == []
  {
    LoadPlanShape(BARE);
    assert LoadRank(PassportBorrowRequests) == 1;
    forall k | 0 <= k < 11 && k != 1 ensures LoadPlan(BARE)[k].rows == [] {
      assert LoadRank(LoadPlan(BARE)[k].table) == k;
      assert LoadPlan(BARE)[k] == LoadOfTable(BARE, LoadPlan(BARE)[k].table);
    }
  }

  lemma NotedRun()
    ensures RestoreOnto(NOTED, AFTER, BARE) == Some(AFTER)
  {
    var states := seq(10, (i: int) => if i <= 8 then AFTER else WITHOUT);
    BarePlan();
    var plan, loads := DeletePlan(BARE), LoadPlan(BARE);
    forall i | 0 <= i < 9 ensures LeadsTo(NOTED, states[i], plan[i], states[i + 1]) {
      NotedStep(DELETE_ORDER[i], states[i], states[i + 1]);
    }
    RunLeads(NOTED, plan, states);
    RequestTurns();
    assert [Record(R, map[])][..0] == [];
    assert WriteRows(NOTED, WITHOUT, PassportBorrowRequests, [Record(R, map[])], Plain) == Some(AFTER);
    OnlyOneLoads(NOTED, WITHOUT, loads, 1, AFTER, 11);
    assert loads[..11] == loads;
  }

  lemma StillThere()
    ensures Selected(AFTER[WorkItems], ReadWhere(BARE, WorkItems)) != Selected(BEFORE[WorkItems], ReadWhere(BARE, WorkItems))
  {
    NotedIsRefused();
    assert "w" !in BEFORE[WorkItems];
  }

  lemma NoteSchema()
    ensures RequestSchema(NOTED)
  {
    assert forall fk | fk in NOTED.foreignKeys :: fk == NOTE_KEY;
    assert forall fk :: !Cascading(NOTED, fk);
  }

  /** The restore commits, and the work item added since the backup is still there. */
  lemma RowLeftBehind()
    ensures RequestSchema(NOTED) && Closed(NOTED, AFTER) && IsBackup(BEFORE, R, BARE) && Consistent(NOTED, BEFORE)
    ensures RestoreOnto(NOTED, AFTER, BARE) == Some(AFTER)
    ensures Selected(AFTER[WorkItems], ReadWhere(BARE, WorkItems)) != Selected(BEFORE[WorkItems], ReadWhere(BARE, WorkItems))
  {
    BareBackup();
    NotedIsRefused();
    NotedRun();
    StillThere();
    NoteSchema();
  }
}
