/** When the restore of a meeting goes through without a refused statement. */
module MeetingReady {
  import opened Prelude
  import opened Relational
  import opened DeleteTheory
  import opened RestoreTheory
  import opened RestoreReadiness
  import opened Connections
  import opened MeetingBackup
  import opened MeetingKeys

  /** The restore of a backup onto `db`: None when the transaction is rolled back. */
  function RestoreOnto(server: Server, db: Database, backup: Snapshot): Option<Database> {
    Restore(server, db, DeletePlan(backup), LoadPlan(backup))
  }

  ghost predicate Taken(server: Server, db0: Database, meeting: Key, backup: Snapshot) {
    IsBackup(db0, meeting, backup) && Consistent(server, db0)
  }

  /** The row found under the meeting's id links to an online meeting of that meeting. */
  ghost predicate LinkedBeforehand(db: Database, meeting: Key) {
    && meeting in RowsIn(db, Meetings)
    && var link := Cell(RowsIn(db, Meetings)[meeting], OnlineMeetingId);
       && link.Text? && link.text in RowsIn(db, OnlineMeetings)
       && Cell(RowsIn(db, OnlineMeetings)[link.text], MeetingId) == Text(meeting)
  }

  /** A backed-up meeting row links to a backed-up online meeting. */
  ghost predicate LinkedInBackup(server: Server, backup: Snapshot) {
    exists n :: 0 <= n < |RowsOf(backup, Meetings)| && LinksBack(server, backup, n)
  }

  ghost predicate LinksBack(server: Server, backup: Snapshot, n: int)
    requires 0 <= n < |RowsOf(backup, Meetings)|
  {
    var link := Cell(Stored(server, Meetings, RowsOf(backup, Meetings)[n].cells), OnlineMeetingId);
    link.Text? && link.text in Ids(RowsOf(backup, OnlineMeetings))
  }

  // ---------- which meetings and online meetings go ----------

  lemma PlanHasStep(backup: Snapshot, table: Table, id: Key, cells: Cells) returns (step: DeleteStep)
    requires Managed(table) && Matches(PlanWhere(backup, table), id, cells)
    ensures step in DeletePlan(backup) && step.table == table
  {
    var plan := DeletePlan(backup);
    PlanCovers(backup, table);
    assert id in Selected(map[id := cells], PlanWhere(backup, table));
    if !DeletesFrom(plan, table) {
      NothingSelected(map[id := cells], PlanWhere(backup, table));
    }
    var i :| 0 <= i < |plan| && plan[i].table == table;
    step := plan[i];
  }

  lemma PlanAimsAt(backup: Snapshot, table: Table, id: Key, cells: Cells)
    requires Managed(table)
    ensures Aimed(StepsOf(DeletePlan(backup)), table, id, cells) <==> Matches(PlanWhere(backup, table), id, cells)
  {
    var steps := StepsOf(DeletePlan(backup));
    if Matches(PlanWhere(backup, table), id, cells) {
      var step := PlanHasStep(backup, table, id, cells);
      PlanIsManaged(backup, step);
      assert step in steps;
    } else {
      forall step | step in steps && step.table == table ensures !Matches(step.where, id, cells) {
        PlanIsManaged(backup, step);
      }
    }
  }

  /** Besides units, recurrences and participants the deletes take just the rows they aim at. */
  lemma PlanTakesAimed(server: Server, db: Database, backup: Snapshot, steps: set<DeleteStep>, table: Table, id: Key)
    requires CascadesInside(server) && NoOrphans(server, db) && steps <= StepsOf(DeletePlan(backup))
    requires !table.MeetingUnits? && !table.MeetingRecurrences? && !table.MeetingParticipants?
    ensures id in RowsIn(Kept(server, db, steps), table) <==>
              id in RowsIn(db, table) && !Aimed(steps, table, id, RowsIn(db, table)[id])
  {
    forall fk | Cascading(server, fk) && fk.child == table ensures AllSpare(server, steps, fk.parent) {
      assert !Managed(fk.parent);
      PlanSparesOthers(server, backup, steps, fk.parent);
    }
    TableLosesOnlyAimed(server, db, steps, table, id);
  }

  lemma DoomedExactly(server: Server, db: Database, backup: Snapshot, table: Table, id: Key)
    requires CascadesInside(server) && NoOrphans(server, db) && Managed(table)
    requires !table.MeetingUnits? && !table.MeetingRecurrences? && !table.MeetingParticipants?
    ensures Doomed(server, db, DeletePlan(backup), table, id) <==>
              id in RowsIn(db, table) && Matches(PlanWhere(backup, table), id, RowsIn(db, table)[id])
  {
    PlanTakesAimed(server, db, backup, StepsOf(DeletePlan(backup)), table, id);
    if id in RowsIn(db, table) {
      PlanAimsAt(backup, table, id, RowsIn(db, table)[id]);
    }
  }

  // ---------- the link on the way ----------

  /** Meetings keep all their rows until the last delete; online meetings lose theirs before. */
  lemma BeforeLastDelete(server: Server, db: Database, backup: Snapshot, id: Key)
    requires CascadesInside(server) && NoOrphans(server, db)
    ensures var plan := DeletePlan(backup);
            var left := Survivors(server, db, plan[..|plan| - 1]);
            && (id in RowsIn(db, Meetings) ==> id in RowsIn(left, Meetings))
            && (Doomed(server, db, plan, OnlineMeetings, id) ==> id !in RowsIn(left, OnlineMeetings))
  {
    var plan := DeletePlan(backup);
    var steps := StepsOf(plan[..|plan| - 1]);
    DeletePlanShape(backup);
    var i := OnlineStepBeforeLast(backup);
    forall step | step in steps ensures step in plan && step.table != Meetings {
      var j :| 0 <= j < |plan| - 1 && plan[..|plan| - 1][j] == step;
      assert plan[j] == step;
    }
    PlanTakesAimed(server, db, backup, steps, Meetings, id);
    PlanTakesAimed(server, db, backup, steps, OnlineMeetings, id);
    DoomedExactly(server, db, backup, OnlineMeetings, id);
    assert plan[..|plan| - 1][i] == plan[i] && plan[i] in steps;
  }

  lemma LinkBreaksOnTheWay(server: Server, db: Database, backup: Snapshot)
    requires CascadesInside(server) && Closed(server, db) && ONLINE_LINK in server.foreignKeys
    requires LinkedBeforehand(db, backup.meeting)
    ensures !HoldsOnTheWay(server, db, DeletePlan(backup), ONLINE_LINK)
  {
    var plan, meeting := DeletePlan(backup), backup.meeting;
    var left := Survivors(server, db, plan[..|plan| - 1]);
    var link := Cell(RowsIn(db, Meetings)[meeting], OnlineMeetingId).text;
    ClosedHasNoOrphans(server, db);
    DoomedExactly(server, db, backup, OnlineMeetings, link);
    BeforeLastDelete(server, db, backup, meeting);
    BeforeLastDelete(server, db, backup, link);
    KeptIsInside(server, db, StepsOf(plan[..|plan| - 1]));
    SubRow(left, db, Meetings, meeting);
    assert !Holds(ONLINE_LINK, left);
    var n := OnlineStepBeforeLast(backup);
  }

  lemma LinkHoldsOnTheWay(server: Server, db: Database, backup: Snapshot)
    requires CascadesInside(server) && Closed(server, db) && ONLINE_LINK in server.foreignKeys
    requires !LinkedBeforehand(db, backup.meeting) && NoStray(server, db, DeletePlan(backup))
    ensures HoldsOnTheWay(server, db, DeletePlan(backup), ONLINE_LINK)
  {
    var plan := DeletePlan(backup);
    ClosedHasNoOrphans(server, db);
    NoStrayMeansClosed(server, db, plan);
    forall i | 0 <= i <= |plan| ensures Holds(ONLINE_LINK, Survivors(server, db, plan[..i])) {
      var left := Survivors(server, db, plan[..i]);
      forall id | id in RowsIn(left, Meetings) && Cell(RowsIn(left, Meetings)[id], OnlineMeetingId).Text?
        ensures Cell(RowsIn(left, Meetings)[id], OnlineMeetingId).text in RowsIn(left, OnlineMeetings)
      {
        LinkedRowHolds(server, db, backup, i, id);
      }
    }
  }

  lemma LinkedRowHolds(server: Server, db: Database, backup: Snapshot, i: nat, id: Key)
    requires CascadesInside(server) && Closed(server, db) && NoOrphans(server, db) && ONLINE_LINK in server.foreignKeys
    requires !LinkedBeforehand(db, backup.meeting) && Closed(server, Survivors(server, db, DeletePlan(backup)))
    requires i <= |DeletePlan(backup)| && id in RowsIn(Survivors(server, db, DeletePlan(backup)[..i]), Meetings)
    requires Cell(RowsIn(Survivors(server, db, DeletePlan(backup)[..i]), Meetings)[id], OnlineMeetingId).Text?
    ensures Cell(RowsIn(Survivors(server, db, DeletePlan(backup)[..i]), Meetings)[id], OnlineMeetingId).text in
            RowsIn(Survivors(server, db, DeletePlan(backup)[..i]), OnlineMeetings)
  {
    var plan := DeletePlan(backup);
    var left, last := Survivors(server, db, plan[..i]), Survivors(server, db, plan);
    var link := Cell(RowsIn(left, Meetings)[id], OnlineMeetingId).text;
    PrefixKeepsMore(server, db, plan, i);
    SubRow(left, db, Meetings, id);
    assert Holds(ONLINE_LINK, db) && link in RowsIn(db, OnlineMeetings);
    DoomedExactly(server, db, backup, Meetings, id);
    DoomedExactly(server, db, backup, OnlineMeetings, link);
    if id in RowsIn(last, Meetings) {
      SubRow(last, left, Meetings, id);
      assert Holds(ONLINE_LINK, last);
    }
    assert link in RowsIn(last, OnlineMeetings);
    SubRow(last, left, OnlineMeetings, link);
  }

  /** A linked meeting is written back before its online meeting. */
  lemma LinkResolvesExactly(server: Server, db: Database, backup: Snapshot)
    requires Ready(server, db, DeletePlan(backup), LoadPlan(backup)) && ONLINE_LINK in server.foreignKeys
    requires Meetings in db && OnlineMeetings in db
    ensures ResolvedOnTheWay(server, db, DeletePlan(backup), LoadPlan(backup), ONLINE_LINK) <==> !LinkedInBackup(server, backup)
  {
    var plan, loads, left := DeletePlan(backup), LoadPlan(backup), Survivors(server, db, DeletePlan(backup));
    LoadPlanShape(backup);
    assert loads[0] == Load(Meetings, RowsOf(backup, Meetings), SkipComputed) by {
      assert LoadRank(Meetings) == 0;
    }
    if LinkedInBackup(server, backup) {
      var n :| 0 <= n < |RowsOf(backup, Meetings)| && LinksBack(server, backup, n);
      assert RowRefers(server, db, loads, ONLINE_LINK, 0, n);
      BackedUpIsGone(server, db, backup, Parent(server, loads, ONLINE_LINK, 0, n));
    } else {
      forall k, n | RowRefers(server, db, loads, ONLINE_LINK, k, n)
        ensures Parent(server, loads, ONLINE_LINK, k, n) in RowsIn(left, OnlineMeetings)
      {
        assert k == 0 && !LinksBack(server, backup, n);
        NotBackedUpStays(server, db, backup, n);
      }
    }
  }

  lemma BackedUpIsGone(server: Server, db: Database, backup: Snapshot, id: Key)
    requires NoCollision(server, db, DeletePlan(backup), LoadPlan(backup)) && id in Ids(RowsOf(backup, OnlineMeetings))
    ensures id !in RowsIn(Survivors(server, db, DeletePlan(backup)), OnlineMeetings)
    ensures forall n :: !WrittenBy(db, LoadPlan(backup), OnlineMeetings, id, 0, n)
  {
    LoadPlanShape(backup);
    var rows := RowsOf(backup, OnlineMeetings);
    var m :| 0 <= m < |rows| && rows[m].id == id;
    assert LoadPlan(backup)[LoadRank(OnlineMeetings)] == Load(OnlineMeetings, rows, SkipComputed);
    assert LoadPlan(backup)[1].rows[m].id !in RowsIn(Survivors(server, db, DeletePlan(backup)), LoadPlan(backup)[1].table);
  }

  lemma NotBackedUpStays(server: Server, db: Database, backup: Snapshot, n: nat)
    requires Resolved(server, db, DeletePlan(backup), LoadPlan(backup)) && RowRefers(server, db, LoadPlan(backup), ONLINE_LINK, 0, n)
    requires LoadPlan(backup)[0] == Load(Meetings, RowsOf(backup, Meetings), SkipComputed)
    requires !LinksBack(server, backup, n)
    ensures Parent(server, LoadPlan(backup), ONLINE_LINK, 0, n) in RowsIn(Survivors(server, db, DeletePlan(backup)), OnlineMeetings)
  {
    OnlineComesBack(db, backup, Parent(server, LoadPlan(backup), ONLINE_LINK, 0, n));
  }

  lemma OnlineComesBack(db: Database, backup: Snapshot, id: Key)
    ensures ComesBack(db, LoadPlan(backup), OnlineMeetings, id) ==> id in Ids(RowsOf(backup, OnlineMeetings))
  {
    var loads := LoadPlan(backup);
    LoadPlanShape(backup);
    if ComesBack(db, loads, OnlineMeetings, id) {
      var l, m :| 0 <= l < |loads| && 0 <= m < |loads[l].rows| && loads[l].table == OnlineMeetings && loads[l].rows[m].id == id;
      assert l == LoadRank(OnlineMeetings) && loads[l].rows == RowsOf(backup, OnlineMeetings);
      assert loads[l].rows[m] in RowsOf(backup, OnlineMeetings);
    }
  }

  // ---------- the main result ----------

  lemma BackupIsWellFormed(db0: Database, meeting: Key, backup: Snapshot)
    requires IsBackup(db0, meeting, backup)
    ensures WellFormed(DeletePlan(backup), LoadPlan(backup))
  {
    DeletePlanShape(backup);
    LoadPlanShape(backup);
    var loads := LoadPlan(backup);
    forall k | 0 <= k < |loads| ensures loads[k].mode == SkipComputed && DistinctIds(loads[k].rows) {
      assert Lists(RowsOf(backup, loads[k].table), Slice(db0, meeting, loads[k].table));
    }
  }

  lemma LinkInOrderExactly(server: Server, db: Database, backup: Snapshot)
    requires CascadesInside(server) && Closed(server, db) && ONLINE_LINK in server.foreignKeys
    requires Ready(server, db, DeletePlan(backup), LoadPlan(backup)) && Meetings in db && OnlineMeetings in db
    ensures InOrder(server, db, DeletePlan(backup), LoadPlan(backup), ONLINE_LINK) <==>
            !LinkedInBackup(server, backup) && !LinkedBeforehand(db, backup.meeting)
  {
    LinkResolvesExactly(server, db, backup);
    if LinkedBeforehand(db, backup.meeting) {
      LinkBreaksOnTheWay(server, db, backup);
    } else {
      LinkHoldsOnTheWay(server, db, backup);
    }
  }

  /**
   Every statement of the restore is accepted, so that every intermediate state is referentially closed
   and the transaction commits, exactly when: the tables are writable, no row that stays refers to one
   that goes, no backed-up id is taken by a row that stays, every parent a backed-up row refers to is
   there or comes back with the backup; and, if the server enforces the reference from meetings to online
   meetings, neither the row found nor a backed-up one links a meeting to an online meeting of its own.
   */
  lemma RestoreIsCleanExactlyWhenReady(server: Server, db0: Database, db: Database, meeting: Key, backup: Snapshot)
    requires Taken(server, db0, meeting, backup)
    requires MeetingSchema(server) && Closed(server, db)
    requires forall table | Managed(table) :: table in db
    ensures Clean(server, db, DeletePlan(backup), LoadPlan(backup)) <==>
            && Ready(server, db, DeletePlan(backup), LoadPlan(backup))
            && (ONLINE_LINK in server.foreignKeys ==> !LinkedInBackup(server, backup) && !LinkedBeforehand(db, meeting))
  {
    BackupIsWellFormed(db0, meeting, backup);
    TreeOrdersFit(server, backup);
    LoadPlanShape(backup);
    CleanExactlyWhenReady(server, db, DeletePlan(backup), LoadPlan(backup), {ONLINE_LINK});
    if Ready(server, db, DeletePlan(backup), LoadPlan(backup)) && ONLINE_LINK in server.foreignKeys {
      LinkInOrderExactly(server, db, backup);
    }
  }
}
