/** Restoring a meeting onto the very database it was backed up from. */
module MeetingRoundTrip {
  import opened Prelude
  import opened Relational
  import opened DeleteTheory
  import opened RestoreTheory
  import opened RestoreReadiness
  import opened RestoreAgain
  import opened Connections
  import opened MeetingBackup
  import opened MeetingKeys
  import opened MeetingReady
  import opened MeetingRestore

  /** There the delete phase looks for exactly the backed-up rows. */
  lemma PlanSelectsSlice(db0: Database, meeting: Key, backup: Snapshot, table: Table)
    requires IsBackup(db0, meeting, backup) && Managed(table)
    ensures Selected(RowsIn(db0, table), PlanWhere(backup, table)) == Slice(db0, meeting, table)
  {
    SliceMatchesPlan(db0, meeting, backup, table);
    ListsIds(RowsOf(backup, table), Slice(db0, meeting, table));
    ListsIds(RowsOf(backup, MeetingUnits), Slice(db0, meeting, MeetingUnits));
    ListsIds(RowsOf(backup, FileRelations), Slice(db0, meeting, FileRelations));
  }

  /** No participant but the backed-up ones hangs on a unit of the meeting. */
  lemma UntouchedIsUnselected(server: Server, db0: Database, meeting: Key, backup: Snapshot, table: Table)
    requires IsBackup(db0, meeting, backup) && Managed(table)
    ensures Untouched(server, db0, backup, table) == Unselected(RowsIn(db0, table), PlanWhere(backup, table))
  {
    PlanSelectsSlice(db0, meeting, backup, MeetingUnits);
    ListsIds(RowsOf(backup, MeetingUnits), Slice(db0, meeting, MeetingUnits));
  }

  /** A restore that commits onto the unchanged database gives that database back. */
  lemma RestoringUnchanged(server: Server, db0: Database, meeting: Key, backup: Snapshot)
    requires Taken(server, db0, meeting, backup) && RestoreOnto(server, db0, backup).Some?
    requires CascadesInside(server) && Closed(server, db0)
    ensures RestoreOnto(server, db0, backup).value == db0
    ensures forall table | Managed(table) && table in db0 :: Leftover(server, db0, backup, table) == map[]
  {
    var after := RestoreOnto(server, db0, backup).value;
    RestoreLeavesTheRest(server, db0, db0, meeting, backup);
    forall table | table in db0
      ensures after[table] == db0[table] && (Managed(table) ==> Leftover(server, db0, backup, table) == map[])
    {
      if Managed(table) {
        TableComesBack(server, db0, meeting, backup, table);
      } else {
        assert RowsIn(after, table) == RowsIn(db0, table);
      }
    }
  }

  lemma TableComesBack(server: Server, db0: Database, meeting: Key, backup: Snapshot, table: Table)
    requires Taken(server, db0, meeting, backup) && RestoreOnto(server, db0, backup).Some?
    requires CascadesInside(server) && Closed(server, db0)
    requires Managed(table) && table in db0
    ensures table in RestoreOnto(server, db0, backup).value
    ensures RestoreOnto(server, db0, backup).value[table] == db0[table]
    ensures Leftover(server, db0, backup, table) == map[]
  {
    RestoredTable(server, db0, db0, meeting, backup, table);
    PlanSelectsSlice(db0, meeting, backup, table);
    OthersStay(server, db0, backup, table);
    UntouchedIsUnselected(server, db0, meeting, backup, table);
    LeftoverIsInside(server, db0, backup, table);
    NothingTwice(db0[table], PlanWhere(backup, table), Leftover(server, db0, backup, table));
  }

  /** Rows left behind cannot share their ids with the reinserted ones. */
  lemma NothingTwice(rows: Rows, where: Where, left: Rows)
    requires Within(left, Selected(rows, where))
    requires (Unselected(rows, where) + left).Keys !! Selected(rows, where).Keys
    ensures left == map[] && Unselected(rows, where) + left + Selected(rows, where) == rows
  {
    assert left.Keys <= (Unselected(rows, where) + left).Keys;
    assert forall id | id in left :: id in left.Keys && id in Selected(rows, where).Keys ==> false;
    Split(rows, where);
    assert Unselected(rows, where) + map[] == Unselected(rows, where);
  }

  /**
   The round trip: with all tables there and writable, restoring a backup onto the database it was taken
   from commits, and changes nothing, exactly when no row outside the meeting refers into it and, where
   the server enforces the link, the meeting is not linked to an online meeting of its own.
   */
  lemma RoundTripExactlyWhen(server: Server, db0: Database, meeting: Key, backup: Snapshot)
    requires Taken(server, db0, meeting, backup) && MeetingSchema(server) && Closed(server, db0)
    requires forall table | Managed(table) :: table in db0 && table !in server.frozen
    ensures RestoreOnto(server, db0, backup) == Some(db0) <==>
            && NoStray(server, db0, DeletePlan(backup))
            && (ONLINE_LINK in server.foreignKeys ==> !LinkedBeforehand(db0, meeting))
    ensures RestoreOnto(server, db0, backup).Some? ==> RestoreOnto(server, db0, backup).value == db0
  {
    if RestoreOnto(server, db0, backup).Some? {
      RestoringUnchanged(server, db0, meeting, backup);
      CommittingMeansUnlinked(server, db0, meeting, backup);
    }
    if && NoStray(server, db0, DeletePlan(backup))
       && (ONLINE_LINK in server.foreignKeys ==> !LinkedBeforehand(db0, meeting))
    {
      UnlinkedCommits(server, db0, meeting, backup);
      RestoringUnchanged(server, db0, meeting, backup);
    }
  }

  lemma CommittingMeansUnlinked(server: Server, db0: Database, meeting: Key, backup: Snapshot)
    requires Taken(server, db0, meeting, backup) && MeetingSchema(server) && Closed(server, db0)
    requires forall table | Managed(table) :: table in db0 && table !in server.frozen
    requires RestoreOnto(server, db0, backup).Some?
    ensures NoStray(server, db0, DeletePlan(backup))
    ensures ONLINE_LINK in server.foreignKeys ==> !LinkedBeforehand(db0, meeting)
  {
    CommittingIsClean(server, db0, meeting, backup);
    RestoreIsCleanExactlyWhenReady(server, db0, db0, meeting, backup);
  }

  lemma UnlinkedCommits(server: Server, db0: Database, meeting: Key, backup: Snapshot)
    requires Taken(server, db0, meeting, backup) && MeetingSchema(server) && Closed(server, db0)
    requires forall table | Managed(table) :: table in db0 && table !in server.frozen
    requires NoStray(server, db0, DeletePlan(backup))
    requires ONLINE_LINK in server.foreignKeys ==> !LinkedBeforehand(db0, meeting)
    ensures RestoreOnto(server, db0, backup).Some?
  {
    if ONLINE_LINK in server.foreignKeys {
      UnlinkedBothWays(server, db0, meeting, backup);
    }
    UnchangedIsReady(server, db0, meeting, backup);
    RestoreIsCleanExactlyWhenReady(server, db0, db0, meeting, backup);
    assert Clean(server, db0, DeletePlan(backup), LoadPlan(backup));
  }

  lemma UnlinkedBothWays(server: Server, db0: Database, meeting: Key, backup: Snapshot)
    requires Taken(server, db0, meeting, backup) && !LinkedBeforehand(db0, meeting)
    ensures !LinkedInBackup(server, backup)
  {
    assert Lists(RowsOf(backup, Meetings), Slice(db0, meeting, Meetings));
    ListsIds(RowsOf(backup, OnlineMeetings), Slice(db0, meeting, OnlineMeetings));
    forall n | 0 <= n < |RowsOf(backup, Meetings)| ensures !LinksBack(server, backup, n) {
      var row := RowsOf(backup, Meetings)[n];
      assert row in RowsOf(backup, Meetings) && row.id == meeting;
      assert db0[Meetings][meeting] == Stored(server, Meetings, db0[Meetings][meeting]);
    }
  }

  lemma CommittingIsClean(server: Server, db0: Database, meeting: Key, backup: Snapshot)
    requires Taken(server, db0, meeting, backup) && MeetingSchema(server) && Closed(server, db0)
    requires forall table | Managed(table) :: table in db0 && table !in server.frozen
    requires RestoreOnto(server, db0, backup).Some?
    ensures Clean(server, db0, DeletePlan(backup), LoadPlan(backup))
  {
    var plan := DeletePlan(backup);
    DeletePlanShape(backup);
    RestoringUnchanged(server, db0, meeting, backup);
    forall i | 0 <= i < |plan| ensures Accepted(server, db0, plan, i) {
      assert StepFits(backup, plan[i]);
      if !plan[i].tolerant {
        UntoleratedIsAccepted(server, db0, plan, i);
      } else if !Accepted(server, db0, plan, i) {
        TolerantIsDirect(backup, i);
        RefusedMeansLeftover(server, db0, backup, plan[i].table);
      }
    }
  }

  // ---------- the unchanged database is ready ----------

  /** There the deletes take just the rows they look for. */
  lemma DoomedIsLookedFor(server: Server, db0: Database, meeting: Key, backup: Snapshot, table: Table, id: Key)
    requires Taken(server, db0, meeting, backup) && CascadesInside(server) && Closed(server, db0)
    requires Doomed(server, db0, DeletePlan(backup), table, id)
    ensures Managed(table) && Matches(PlanWhere(backup, table), id, RowsIn(db0, table)[id])
    decreases DeleteRank(table) < 0, table == MeetingParticipants
  {
    ClosedHasNoOrphans(server, db0);
    if !Managed(table) {
      OutsiderStays(server, db0, backup, table);
    } else if !Matches(PlanWhere(backup, table), id, RowsIn(db0, table)[id]) {
      var steps, cells := StepsOf(DeletePlan(backup)), RowsIn(db0, table)[id];
      PlanAimsAt(backup, table, id, cells);
      KeptExactly(server, db0, steps, table, id);
      var fk :| Cascading(server, fk) && fk.child == table && Cell(cells, fk.column).Text?
                && Cell(cells, fk.column).text !in RowsIn(Survivors(server, db0, DeletePlan(backup)), fk.parent);
      assert Holds(fk, db0);
      ParentIsLookedFor(server, db0, meeting, backup, fk, id);
    }
  }

  lemma ParentIsLookedFor(server: Server, db0: Database, meeting: Key, backup: Snapshot, fk: ForeignKey, id: Key)
    requires Taken(server, db0, meeting, backup) && CascadesInside(server) && Closed(server, db0)
    requires Cascading(server, fk) && Managed(fk.child) && id in RowsIn(db0, fk.child)
    requires Cell(RowsIn(db0, fk.child)[id], fk.column).Text?
    requires Doomed(server, db0, DeletePlan(backup), fk.parent, Cell(RowsIn(db0, fk.child)[id], fk.column).text)
    ensures Matches(PlanWhere(backup, fk.child), id, RowsIn(db0, fk.child)[id])
    decreases false, fk.child == MeetingParticipants, 0
  {
    var parent := Cell(RowsIn(db0, fk.child)[id], fk.column).text;
    ClosedHasNoOrphans(server, db0);
    if !Managed(fk.parent) {
      OutsiderStays(server, db0, backup, fk.parent);
    } else if fk == PARTICIPANTS_KEY {
      DoomedIsLookedFor(server, db0, meeting, backup, MeetingUnits, parent);
      UnitIsBackedUp(db0, meeting, backup, parent);
    } else {
      CascadesFromMeetings(server, backup, fk);
      DoomedExactly(server, db0, backup, Meetings, parent);
    }
  }

  lemma UnitIsBackedUp(db0: Database, meeting: Key, backup: Snapshot, unit: Key)
    requires IsBackup(db0, meeting, backup) && unit in RowsIn(db0, MeetingUnits)
    requires Matches(PlanWhere(backup, MeetingUnits), unit, RowsIn(db0, MeetingUnits)[unit])
    ensures unit in Ids(RowsOf(backup, MeetingUnits))
  {
    PlanSelectsSlice(db0, meeting, backup, MeetingUnits);
    ListsIds(RowsOf(backup, MeetingUnits), Slice(db0, meeting, MeetingUnits));
    assert unit in Slice(db0, meeting, MeetingUnits);
  }

  lemma CascadesFromMeetings(server: Server, backup: Snapshot, fk: ForeignKey)
    requires CascadesInside(server) && Cascading(server, fk) && Managed(fk.parent) && fk != PARTICIPANTS_KEY
    ensures fk.parent == Meetings && PlanWhere(backup, fk.child) == ColumnIn(fk.column, {backup.meeting})
    ensures PlanWhere(backup, Meetings) == IdIn({backup.meeting})
  {
    assert fk in CASCADES;
  }

  /** Where nothing outside refers in, the database the backup was taken from is ready for it. */
  lemma UnchangedIsReady(server: Server, db0: Database, meeting: Key, backup: Snapshot)
    requires Taken(server, db0, meeting, backup) && CascadesInside(server) && Closed(server, db0)
    requires forall table | Managed(table) :: table in db0 && table !in server.frozen
    requires NoStray(server, db0, DeletePlan(backup))
    ensures Ready(server, db0, DeletePlan(backup), LoadPlan(backup))
  {
    var plan, loads := DeletePlan(backup), LoadPlan(backup);
    DeletePlanShape(backup);
    LoadPlanShape(backup);
    assert DeletesMayWrite(server, db0, plan) by {
      assert forall i | 0 <= i < |plan| :: StepFits(backup, plan[i]);
    }
    forall k, n | 0 <= k < |loads| && 0 <= n < |loads[k].rows|
      ensures loads[k].rows[n].id !in RowsIn(Survivors(server, db0, plan), loads[k].table)
    {
      BackedUpIsDoomed(server, db0, meeting, backup, loads[k].table, loads[k].rows[n]);
    }
    forall fk, k, n | RowRefers(server, db0, loads, fk, k, n)
      ensures || Parent(server, loads, fk, k, n) in RowsIn(Survivors(server, db0, plan), fk.parent)
              || ComesBack(db0, loads, fk.parent, Parent(server, loads, fk, k, n))
    {
      ParentComesBack(server, db0, meeting, backup, fk, loads[k].rows[n]);
    }
  }

  /** A backed-up row is one of the rows the delete phase removes. */
  lemma BackedUpIsDoomed(server: Server, db0: Database, meeting: Key, backup: Snapshot, table: Table, row: Record)
    requires IsBackup(db0, meeting, backup) && Managed(table) && row in RowsOf(backup, table)
    ensures row.id in RowsIn(db0, table) && RowsIn(db0, table)[row.id] == row.cells
    ensures row.id !in RowsIn(Survivors(server, db0, DeletePlan(backup)), table)
  {
    SliceMatchesPlan(db0, meeting, backup, table);
    assert Lists(RowsOf(backup, table), Slice(db0, meeting, table));
    assert row.id in Slice(db0, meeting, table);
    PlanAimsAt(backup, table, row.id, row.cells);
    KeptExactly(server, db0, StepsOf(DeletePlan(backup)), table, row.id);
  }

  /** What a backed-up row refers to is kept, or comes back with the backup. */
  lemma ParentComesBack(server: Server, db0: Database, meeting: Key, backup: Snapshot, fk: ForeignKey, row: Record)
    requires Taken(server, db0, meeting, backup) && CascadesInside(server) && Closed(server, db0) && fk in server.foreignKeys
    requires Managed(fk.child) && fk.child in db0 && row in RowsOf(backup, fk.child)
    requires Cell(Stored(server, fk.child, row.cells), fk.column).Text?
    ensures var parent := Cell(Stored(server, fk.child, row.cells), fk.column).text;
            || parent in RowsIn(Survivors(server, db0, DeletePlan(backup)), fk.parent)
            || ComesBack(db0, LoadPlan(backup), fk.parent, parent)
  {
    BackedUpIsDoomed(server, db0, meeting, backup, fk.child, row);
    assert db0[fk.child][row.id] == Stored(server, fk.child, db0[fk.child][row.id]);
    var parent := Cell(row.cells, fk.column).text;
    assert Holds(fk, db0) && parent in RowsIn(db0, fk.parent);
    if Doomed(server, db0, DeletePlan(backup), fk.parent, parent) {
      DoomedIsLookedFor(server, db0, meeting, backup, fk.parent, parent);
      LookedForComesBack(db0, meeting, backup, fk.parent, parent);
    }
  }

  lemma LookedForComesBack(db0: Database, meeting: Key, backup: Snapshot, table: Table, id: Key)
    requires IsBackup(db0, meeting, backup) && Managed(table)
    requires id in RowsIn(db0, table) && Matches(PlanWhere(backup, table), id, RowsIn(db0, table)[id])
    ensures ComesBack(db0, LoadPlan(backup), table, id)
  {
    var loads, rows := LoadPlan(backup), RowsOf(backup, table);
    LoadPlanShape(backup);
    PlanSelectsSlice(db0, meeting, backup, table);
    assert id in Slice(db0, meeting, table);
    assert Record(id, Slice(db0, meeting, table)[id]) in rows;
    var m :| 0 <= m < |rows| && rows[m] == Record(id, Slice(db0, meeting, table)[id]);
    assert loads[LoadRank(table)] == Load(table, rows, SkipComputed);
    assert loads[LoadRank(table)].rows[m].id == id;
  }
}
