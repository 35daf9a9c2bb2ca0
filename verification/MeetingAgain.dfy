/** Restoring a meeting twice. */
module MeetingAgain {
  import opened Prelude
  import opened Relational
  import opened DeleteTheory
  import opened RestoreTheory
  import opened RestoreReadiness
  import opened RestoreAgain
  import opened Connections
  import opened MeetingBackup
  import opened MeetingKeys
  import opened MeetingReady
  import opened MeetingRestore

  // ---------- what the deletes after one of them reach ----------

  lemma LaterRanksHigher(backup: Snapshot, table: Table, step: DeleteStep)
    requires Direct(table) && step in Later(DeletePlan(backup), DirectIndex(backup, table))
    ensures step in DeletePlan(backup) && Managed(step.table) && DeleteRank(table) < DeleteRank(step.table)
  {
    var plan, i := DeletePlan(backup), DirectIndex(backup, table);
    DeletePlanShape(backup);
    var m :| 0 <= m < |plan[i + 1..]| && plan[i + 1..][m] == step;
    assert plan[i + 1 + m] == step && StepFits(backup, plan[i + 1 + m]);
  }

  /** Where nothing ties a table to its meeting row, later deletes reach neither it nor what hangs on it. */
  lemma LaterSpares(server: Server, backup: Snapshot, table: Table, other: Table)
    requires CascadesInside(server) && Direct(table)
    requires ForeignKey(table, MeetingColumn(table), Meetings) !in server.foreignKeys
    requires other == table || (table == MeetingUnits && (other == MeetingParticipants || other == MeetingUnitSeats))
    ensures AllSpare(server, Later(DeletePlan(backup), DirectIndex(backup, table)), other)
  {
    forall step | step in Later(DeletePlan(backup), DirectIndex(backup, table)) ensures Spares(server, step.table, other) {
      LaterRanksHigher(backup, table, step);
      UnkeyedIsNotReached(server, table, other, step.table);
      SparesUnreached(server, step.table, other);
    }
  }

  lemma UnkeyedIsNotReached(server: Server, table: Table, other: Table, from: Table)
    requires Direct(table) && ForeignKey(table, MeetingColumn(table), Meetings) !in server.foreignKeys
    requires other == table || (table == MeetingUnits && (other == MeetingParticipants || other == MeetingUnitSeats))
    requires Managed(from) && DeleteRank(table) < DeleteRank(from)
    ensures other !in Reached(server, from)
  {
  }

  lemma LaterIsPlanned(backup: Snapshot, table: Table)
    requires Direct(table)
    ensures Later(DeletePlan(backup), DirectIndex(backup, table)) <= StepsOf(DeletePlan(backup))
  {
    forall step | step in Later(DeletePlan(backup), DirectIndex(backup, table)) ensures step in DeletePlan(backup) {
      LaterRanksHigher(backup, table, step);
    }
  }

  // ---------- what a refused delete left is left again ----------

  lemma TakenOutlives(server: Server, db: Database, backup: Snapshot, table: Table, other: Table, id: Key)
    requires CascadesInside(server) && NoOrphans(server, db) && Direct(table)
    requires ForeignKey(table, MeetingColumn(table), Meetings) !in server.foreignKeys
    requires TakenBy(server, db, DirectStep(backup.meeting, table), other, id)
    ensures id in RowsIn(Kept(server, db, Later(DeletePlan(backup), DirectIndex(backup, table))), other)
  {
    TakenIsReached(server, db, DirectStep(backup.meeting, table), other, id);
    LaterSpares(server, backup, table, other);
    SparedTableStays(server, db, Later(DeletePlan(backup), DirectIndex(backup, table)), other);
  }

  lemma OnlineTakesOwn(server: Server, db: Database, backup: Snapshot, id: Key)
    requires CascadesInside(server) && NoOrphans(server, db)
    ensures TakenBy(server, db, DirectStep(backup.meeting, OnlineMeetings), OnlineMeetings, id) <==>
              id in Selected(RowsIn(db, OnlineMeetings), PlanWhere(backup, OnlineMeetings))
  {
    var step := DirectStep(backup.meeting, OnlineMeetings);
    var i := OnlineStepBeforeLast(backup);
    PlanTakesAimed(server, db, backup, {step}, OnlineMeetings, id);
    if id in RowsIn(db, OnlineMeetings) {
      OneStepAims(step, id, RowsIn(db, OnlineMeetings)[id]);
    }
  }

  /** Rows that refer into the delete of online meetings are those that refer to an own online meeting. */
  lemma RefersToOwn(server: Server, db: Database, backup: Snapshot, fk: ForeignKey, id: Key)
    requires CascadesInside(server) && NoOrphans(server, db)
    ensures RefersInto(server, db, DirectStep(backup.meeting, OnlineMeetings), fk, id) <==> HoldsOwn(server, db, backup, fk, id)
  {
    if id in RowsIn(db, fk.child) && Cell(RowsIn(db, fk.child)[id], fk.column).Text? {
      var online := Cell(RowsIn(db, fk.child)[id], fk.column).text;
      OnlineTakesOwn(server, db, backup, online);
      if RefersInto(server, db, DirectStep(backup.meeting, OnlineMeetings), fk, id) {
        TakenIsReached(server, db, DirectStep(backup.meeting, OnlineMeetings), fk.parent, online);
      }
    }
  }

  ghost predicate HoldsOwn(server: Server, db: Database, backup: Snapshot, fk: ForeignKey, id: Key) {
    && fk in server.foreignKeys && fk.parent == OnlineMeetings && id in RowsIn(db, fk.child)
    && Cell(RowsIn(db, fk.child)[id], fk.column).Text?
    && Cell(RowsIn(db, fk.child)[id], fk.column).text in Selected(RowsIn(db, OnlineMeetings), PlanWhere(backup, OnlineMeetings))
  }

  lemma OneStepAims(step: DeleteStep, id: Key, cells: Cells)
    ensures Aimed({step}, step.table, id, cells) <==> Matches(step.where, id, cells)
  {
  }

  lemma ReferrerOutlives(server: Server, db: Database, backup: Snapshot, table: Table, fk: ForeignKey, id: Key)
    requires MeetingSchema(server) && NoOrphans(server, db) && Direct(table)
    requires ForeignKey(table, MeetingColumn(table), Meetings) !in server.foreignKeys
    requires RefersInto(server, db, DirectStep(backup.meeting, table), fk, id)
    requires table == OnlineMeetings && ONLINE_LINK in server.foreignKeys ==> !LinkedBeforehand(db, backup.meeting)
    ensures id in RowsIn(Kept(server, db, Later(DeletePlan(backup), DirectIndex(backup, table))), fk.child)
  {
    var later := Later(DeletePlan(backup), DirectIndex(backup, table));
    var parent := Cell(RowsIn(db, fk.child)[id], fk.column).text;
    TakenIsReached(server, db, DirectStep(backup.meeting, table), fk.parent, parent);
    LaterIsPlanned(backup, table);
    if !Managed(fk.child) {
      PlanSparesOthers(server, backup, later, fk.child);
      SparedTableStays(server, db, later, fk.child);
    } else if fk == ONLINE_LINK {
      LinkIsIntoOnline(server, table);
      OnlineTakesOwn(server, db, backup, parent);
      OtherMeetingOutlives(server, db, backup, later, id);
    } else {
      RefersToUnits(server, table, fk);
      LaterSpares(server, backup, table, fk.child);
      SparedTableStays(server, db, later, fk.child);
    }
  }

  lemma OtherMeetingOutlives(server: Server, db: Database, backup: Snapshot, steps: set<DeleteStep>, id: Key)
    requires CascadesInside(server) && NoOrphans(server, db) && steps <= StepsOf(DeletePlan(backup))
    requires id in RowsIn(db, Meetings) && id != backup.meeting
    ensures id in RowsIn(Kept(server, db, steps), Meetings)
  {
    PlanTakesAimed(server, db, backup, steps, Meetings, id);
    PlanAimsAt(backup, Meetings, id, RowsIn(db, Meetings)[id]);
  }

  lemma NoUpserts(backup: Snapshot, table: Table)
    ensures !UpsertsInto(LoadPlan(backup), table)
  {
    LoadPlanShape(backup);
  }

  lemma UnlinkedStepLasts(server: Server, db: Database, backup: Snapshot, table: Table)
    requires MeetingSchema(server) && NoOrphans(server, db) && Direct(table)
    requires ForeignKey(table, MeetingColumn(table), Meetings) !in server.foreignKeys
    requires table == OnlineMeetings && ONLINE_LINK in server.foreignKeys ==> !LinkedBeforehand(db, backup.meeting)
    ensures Lasting(server, db, DeletePlan(backup), LoadPlan(backup), DirectIndex(backup, table))
  {
    var plan, i := DeletePlan(backup), DirectIndex(backup, table);
    forall other, id | TakenBy(server, db, plan[i], other, id) ensures id in RowsIn(Kept(server, db, Later(plan, i)), other) {
      TakenOutlives(server, db, backup, table, other, id);
    }
    forall fk, id | RefersInto(server, db, plan[i], fk, id)
      ensures !UpsertsInto(LoadPlan(backup), fk.child) && id in RowsIn(Kept(server, db, Later(plan, i)), fk.child)
    {
      NoUpserts(backup, fk.child);
      ReferrerOutlives(server, db, backup, table, fk, id);
    }
  }

  /** The server enforces the meeting's link to its online meeting, but not the reference back. */
  ghost predicate LinkedOneWay(server: Server) {
    ONLINE_LINK in server.foreignKeys && ONLINE_KEY !in server.foreignKeys
  }

  /** Every delete of the plan repeats, but for that of online meetings where the meeting's own link holds it. */
  lemma StepRepeats(server: Server, db: Database, backup: Snapshot, i: nat)
    requires MeetingSchema(server) && NoOrphans(server, db) && i < |DeletePlan(backup)|
    requires DeletePlan(backup)[i].table == OnlineMeetings && LinkedOneWay(server) ==> !LinkedBeforehand(db, backup.meeting)
    ensures Repeatable(server, db, DeletePlan(backup), LoadPlan(backup), i)
  {
    var table := DeletePlan(backup)[i].table;
    if DeletePlan(backup)[i].tolerant {
      TolerantIsDirect(backup, i);
      if ForeignKey(table, MeetingColumn(table), Meetings) in server.foreignKeys {
        KeyedIsAnchored(server, backup, table);
      } else {
        UnlinkedStepLasts(server, db, backup, table);
      }
    }
  }

  lemma PlanRunsTwice(server: Server, backup: Snapshot)
    ensures DistinctLoads(LoadPlan(backup)) && UpsertsApart(server, DeletePlan(backup), LoadPlan(backup))
  {
    LoadPlanShape(backup);
  }

  /**
   Restoring a backup onto its own result changes nothing, whatever was refused the first time; but
   where only the meeting's link is enforced, the row found must not link to an online meeting of its own.
   */
  lemma MeetingRestoreTwice(server: Server, db: Database, backup: Snapshot)
    requires MeetingSchema(server) && Closed(server, db)
    requires LinkedOneWay(server) ==> !LinkedBeforehand(db, backup.meeting)
    ensures var once := AfterRestore(server, db, DeletePlan(backup), LoadPlan(backup));
            AfterRestore(server, once, DeletePlan(backup), LoadPlan(backup)) == once
  {
    var plan, loads := DeletePlan(backup), LoadPlan(backup);
    ClosedHasNoOrphans(server, db);
    PlanRunsTwice(server, backup);
    forall i | 0 <= i < |plan| ensures Repeatable(server, db, plan, loads, i) {
      StepRepeats(server, db, backup, i);
    }
    RestoreTwice(server, db, plan, loads);
  }

  // ---------- the link held only by the row that is replaced ----------

  /**
   The meeting's own link is all that keeps its online meetings from being deleted, and the backed-up
   meeting links to none of them: the first restore has to leave them, the second need not.
   */
  ghost predicate Freed(server: Server, db: Database, backup: Snapshot) {
    && LinkedOneWay(server) && OnlineMeetings !in server.frozen && LinkedBeforehand(db, backup.meeting)
    && (forall fk, id | Referrer(server, db, backup, OnlineMeetings, fk, id) :: fk == ONLINE_LINK && id == backup.meeting)
    && !LinksToOld(server, db, backup)
  }

  /** A backed-up meeting row links to an online meeting found under the meeting. */
  ghost predicate LinksToOld(server: Server, db: Database, backup: Snapshot) {
    exists n :: 0 <= n < |RowsOf(backup, Meetings)| && LinkGoesInto(server, backup, n, Selected(RowsIn(db, OnlineMeetings), PlanWhere(backup, OnlineMeetings)))
  }

  ghost predicate LinkGoesInto(server: Server, backup: Snapshot, n: int, rows: Rows)
    requires 0 <= n < |RowsOf(backup, Meetings)|
  {
    var link := Cell(Stored(server, Meetings, RowsOf(backup, Meetings)[n].cells), OnlineMeetingId);
    link.Text? && link.text in rows
  }

  /** Two committed restores of the backup in a row. */
  ghost predicate BothCommit(server: Server, db0: Database, db: Database, once: Database, meeting: Key, backup: Snapshot) {
    && Taken(server, db0, meeting, backup) && MeetingSchema(server) && Closed(server, db)
    && Meetings in db && OnlineMeetings in db
    && RestoreOnto(server, db, backup) == Some(once) && RestoreOnto(server, once, backup).Some?
  }

  lemma OnceIsClosed(server: Server, db0: Database, db: Database, once: Database, meeting: Key, backup: Snapshot)
    requires BothCommit(server, db0, db, once, meeting, backup)
    ensures NoOrphans(server, db) && Closed(server, once) && NoOrphans(server, once) && once.Keys == db.Keys
    ensures RunDeletes(server, db, DeletePlan(backup)).Some? && Closed(server, LeftBy(server, db, backup))
    ensures Sub(LeftBy(server, db, backup), db)
    ensures Twice(server, db, once, DeletePlan(backup), LoadPlan(backup))
  {
    PhaseOf(server, db, backup);
    PlanRunsTwice(server, backup);
    LoadsKeepClosed(server, LeftBy(server, db, backup), LoadPlan(backup));
    ClosedHasNoOrphans(server, once);
  }

  lemma LeftRowComesThrough(server: Server, db0: Database, db: Database, once: Database, meeting: Key, backup: Snapshot, table: Table, id: Key)
    requires BothCommit(server, db0, db, once, meeting, backup) && RunDeletes(server, db, DeletePlan(backup)).Some?
    requires id in RowsIn(LeftBy(server, db, backup), table)
    ensures id in RowsIn(once, table) && RowsIn(once, table)[id] == RowsIn(LeftBy(server, db, backup), table)[id]
  {
    var left := LeftBy(server, db, backup);
    PlanRunsTwice(server, backup);
    NoUpserts(backup, table);
    LoadsKeepRows(server, left, LoadPlan(backup), table);
    assert Within(RowsIn(left, table), RowsIn(once, table));
  }

  /** The first run leaves the online meetings the link holds. */
  lemma OwnOnlineStays(server: Server, db0: Database, db: Database, once: Database, meeting: Key, backup: Snapshot, id: Key)
    requires BothCommit(server, db0, db, once, meeting, backup)
    requires LinkedOneWay(server) && LinkedBeforehand(db, meeting) && id in RowsIn(db, OnlineMeetings)
    ensures id in RowsIn(LeftBy(server, db, backup), OnlineMeetings) && id in RowsIn(once, OnlineMeetings)
    ensures RowsIn(once, OnlineMeetings)[id] == RowsIn(db, OnlineMeetings)[id]
  {
    OnceIsClosed(server, db0, db, once, meeting, backup);
    if Matches(PlanWhere(backup, OnlineMeetings), id, RowsIn(db, OnlineMeetings)[id]) {
      OnlineIsRefused(server, db, backup);
      RefusedLeaves(server, db, backup, OnlineMeetings, id);
    } else {
      KeyedByOtherMeetingStays(server, db, backup, OnlineMeetings, id);
    }
    SubRow(LeftBy(server, db, backup), db, OnlineMeetings, id);
    LeftRowComesThrough(server, db0, db, once, meeting, backup, OnlineMeetings, id);
  }

  lemma OnlineIsRefused(server: Server, db: Database, backup: Snapshot)
    requires MeetingSchema(server) && Closed(server, db) && RunDeletes(server, db, DeletePlan(backup)).Some?
    requires LinkedOneWay(server) && LinkedBeforehand(db, backup.meeting)
    ensures !Accepted(server, db, DeletePlan(backup), DirectIndex(backup, OnlineMeetings))
  {
    if OnlineMeetings in server.frozen {
      FrozenIsRefused(server, db, DeletePlan(backup), DirectIndex(backup, OnlineMeetings));
    } else {
      ClosedHasNoOrphans(server, db);
      OwnLinkRefers(server, db, backup);
      ReferrerRefuses(server, db, backup, OnlineMeetings, ONLINE_LINK, backup.meeting);
    }
  }

  lemma OwnLinkRefers(server: Server, db: Database, backup: Snapshot)
    requires CascadesInside(server) && NoOrphans(server, db) && ONLINE_LINK in server.foreignKeys
    requires LinkedBeforehand(db, backup.meeting)
    ensures Referrer(server, db, backup, OnlineMeetings, ONLINE_LINK, backup.meeting)
  {
    OnlineTakesOwn(server, db, backup, Cell(RowsIn(db, Meetings)[backup.meeting], OnlineMeetingId).text);
  }

  // ---------- not freed: refused again ----------

  lemma HeldAgain(server: Server, db0: Database, db: Database, once: Database, meeting: Key, backup: Snapshot, fk: ForeignKey, id: Key)
    requires BothCommit(server, db0, db, once, meeting, backup)
    requires LinkedOneWay(server) && LinkedBeforehand(db, meeting) && OnlineMeetings !in server.frozen
    requires Referrer(server, db, backup, OnlineMeetings, fk, id) && !(fk == ONLINE_LINK && id == meeting)
    ensures !Accepted(server, once, DeletePlan(backup), DirectIndex(backup, OnlineMeetings))
  {
    OnceIsClosed(server, db0, db, once, meeting, backup);
    RefersToOwn(server, db, backup, fk, id);
    HolderComesThrough(server, db0, db, once, meeting, backup, fk, id);
    OwnOnlineStays(server, db0, db, once, meeting, backup, Cell(RowsIn(db, fk.child)[id], fk.column).text);
    assert HoldsOwn(server, once, backup, fk, id);
    RefersToOwn(server, once, backup, fk, id);
    ReferrerRefuses(server, once, backup, OnlineMeetings, fk, id);
  }

  lemma HolderComesThrough(server: Server, db0: Database, db: Database, once: Database, meeting: Key, backup: Snapshot, fk: ForeignKey, id: Key)
    requires BothCommit(server, db0, db, once, meeting, backup) && NoOrphans(server, db) && NoOrphans(server, once)
    requires fk in server.foreignKeys && fk.parent == OnlineMeetings && id in RowsIn(db, fk.child) && !(fk == ONLINE_LINK && id == meeting)
    ensures id in RowsIn(once, fk.child) && RowsIn(once, fk.child)[id] == RowsIn(db, fk.child)[id]
    ensures fk == ONLINE_LINK || !Doomed(server, once, DeletePlan(backup), fk.child, id)
  {
    OnceIsClosed(server, db0, db, once, meeting, backup);
    if Managed(fk.child) {
      OnlyLinkIsIntoOnline(server, fk);
      MeetingStaysExactly(server, db, backup, id);
      SubRow(LeftBy(server, db, backup), db, Meetings, id);
      LeftRowComesThrough(server, db0, db, once, meeting, backup, Meetings, id);
    } else {
      OtherTableKept(server, db, backup, fk.child);
      OutsiderStays(server, once, backup, fk.child);
    }
  }

  lemma OnlyLinkIsIntoOnline(server: Server, fk: ForeignKey)
    requires MeetingSchema(server) && fk in server.foreignKeys && fk.parent == OnlineMeetings && Managed(fk.child)
    ensures fk == ONLINE_LINK
  {
  }

  lemma HeldByBackedUp(server: Server, db0: Database, db: Database, once: Database, meeting: Key, backup: Snapshot)
    requires BothCommit(server, db0, db, once, meeting, backup)
    requires LinkedOneWay(server) && LinkedBeforehand(db, meeting) && OnlineMeetings !in server.frozen
    requires LinksToOld(server, db, backup)
    ensures !Accepted(server, once, DeletePlan(backup), DirectIndex(backup, OnlineMeetings))
  {
    OnceIsClosed(server, db0, db, once, meeting, backup);
    var rows := RowsOf(backup, Meetings);
    var n :| 0 <= n < |rows| && LinkGoesInto(server, backup, n, Selected(RowsIn(db, OnlineMeetings), PlanWhere(backup, OnlineMeetings)));
    var online := Cell(Stored(server, Meetings, rows[n].cells), OnlineMeetingId).text;
    OwnOnlineStays(server, db0, db, once, meeting, backup, online);
    OnlineTakesOwn(server, once, backup, online);
    BackedUpMeetingIsThere(server, db0, db, once, meeting, backup, n);
    ReferrerRefuses(server, once, backup, OnlineMeetings, ONLINE_LINK, rows[n].id);
  }

  lemma BackedUpMeetingIsThere(server: Server, db0: Database, db: Database, once: Database, meeting: Key, backup: Snapshot, n: nat)
    requires BothCommit(server, db0, db, once, meeting, backup) && n < |RowsOf(backup, Meetings)|
    ensures RowsOf(backup, Meetings)[n].id in RowsIn(once, Meetings)
    ensures RowsIn(once, Meetings)[RowsOf(backup, Meetings)[n].id] == Stored(server, Meetings, RowsOf(backup, Meetings)[n].cells)
  {
    OnceIsClosed(server, db0, db, once, meeting, backup);
    LoadPlanShape(backup);
    assert Lists(RowsOf(backup, Meetings), Slice(db0, meeting, Meetings));
    LoadOf(server, LeftBy(server, db, backup), LoadPlan(backup), LoadRank(Meetings));
    ImageAt(server, Meetings, RowsOf(backup, Meetings), n);
  }

  // ---------- freed: gone the second time ----------

  /** Whoever holds an own online meeting after the first run did so before, but for backed-up meetings. */
  lemma HolderWasThere(server: Server, db0: Database, db: Database, once: Database, meeting: Key, backup: Snapshot, fk: ForeignKey, id: Key)
    requires BothCommit(server, db0, db, once, meeting, backup)
    requires LinkedOneWay(server) && LinkedBeforehand(db, meeting)
    requires HoldsOwn(server, once, backup, fk, id)
    ensures (Referrer(server, db, backup, OnlineMeetings, fk, id) && !(fk == ONLINE_LINK && id == meeting)) || LinksToOld(server, db, backup)
  {
    OnceIsClosed(server, db0, db, once, meeting, backup);
    if !Managed(fk.child) {
      OutsiderWasThere(server, db0, db, once, meeting, backup, fk, id);
    } else {
      OnlyLinkIsIntoOnline(server, fk);
      if id in RowsIn(LeftBy(server, db, backup), Meetings) {
        MeetingWasThere(server, db0, db, once, meeting, backup, id);
      } else {
        NewMeetingIsBackedUp(server, db0, db, once, meeting, backup, id, Cell(RowsIn(once, Meetings)[id], OnlineMeetingId).text);
      }
    }
  }

  lemma OutsiderWasThere(server: Server, db0: Database, db: Database, once: Database, meeting: Key, backup: Snapshot, fk: ForeignKey, id: Key)
    requires BothCommit(server, db0, db, once, meeting, backup) && NoOrphans(server, db)
    requires LinkedOneWay(server) && LinkedBeforehand(db, meeting)
    requires !Managed(fk.child) && HoldsOwn(server, once, backup, fk, id)
    ensures Referrer(server, db, backup, OnlineMeetings, fk, id)
  {
    OtherTableKept(server, db, backup, fk.child);
    assert Holds(fk, db);
    OwnOnlineStays(server, db0, db, once, meeting, backup, Cell(RowsIn(once, fk.child)[id], fk.column).text);
    RefersToOwn(server, db, backup, fk, id);
    OutsiderStays(server, db, backup, fk.child);
  }

  lemma MeetingWasThere(server: Server, db0: Database, db: Database, once: Database, meeting: Key, backup: Snapshot, id: Key)
    requires BothCommit(server, db0, db, once, meeting, backup) && NoOrphans(server, db)
    requires RunDeletes(server, db, DeletePlan(backup)).Some? && Sub(LeftBy(server, db, backup), db)
    requires LinkedOneWay(server) && LinkedBeforehand(db, meeting)
    requires id in RowsIn(LeftBy(server, db, backup), Meetings) && HoldsOwn(server, once, backup, ONLINE_LINK, id)
    ensures Referrer(server, db, backup, OnlineMeetings, ONLINE_LINK, id) && id != meeting
  {
    MeetingStaysExactly(server, db, backup, id);
    SubRow(LeftBy(server, db, backup), db, Meetings, id);
    LeftRowComesThrough(server, db0, db, once, meeting, backup, Meetings, id);
    assert Holds(ONLINE_LINK, db);
    OwnOnlineStays(server, db0, db, once, meeting, backup, Cell(RowsIn(db, Meetings)[id], OnlineMeetingId).text);
    RefersToOwn(server, db, backup, ONLINE_LINK, id);
  }

  lemma NewMeetingIsBackedUp(server: Server, db0: Database, db: Database, once: Database, meeting: Key, backup: Snapshot, id: Key, online: Key)
    requires BothCommit(server, db0, db, once, meeting, backup) && RunDeletes(server, db, DeletePlan(backup)).Some?
    requires LinkedOneWay(server) && LinkedBeforehand(db, meeting) && id !in RowsIn(LeftBy(server, db, backup), Meetings)
    requires id in RowsIn(once, Meetings) && Cell(RowsIn(once, Meetings)[id], OnlineMeetingId) == Text(online)
    requires online in Selected(RowsIn(once, OnlineMeetings), PlanWhere(backup, OnlineMeetings))
    ensures LinksToOld(server, db, backup)
  {
    var left, rows := LeftBy(server, db, backup), RowsOf(backup, Meetings);
    OnceIsClosed(server, db0, db, once, meeting, backup);
    LoadPlanShape(backup);
    assert Lists(rows, Slice(db0, meeting, Meetings));
    LoadOf(server, left, LoadPlan(backup), LoadRank(Meetings));
    MentionedInImage(server, Meetings, rows, id);
    var n :| 0 <= n < |rows| && rows[n].id == id;
    ImageAt(server, Meetings, rows, n);
    OnlineMeetingIsThere(server, left, backup, n);
    OnlyMeetingsFirst(server, left, backup);
    SubRow(left, db, OnlineMeetings, online);
    OwnOnlineStays(server, db0, db, once, meeting, backup, online);
    assert LinkGoesInto(server, backup, n, Selected(RowsIn(db, OnlineMeetings), PlanWhere(backup, OnlineMeetings)));
  }

  lemma OnlyMeetingsFirst(server: Server, mid: Database, backup: Snapshot)
    requires RunLoads(server, mid, LoadPlan(backup)[..1]).Some?
    ensures RowsIn(RunLoads(server, mid, LoadPlan(backup)[..1]).value, OnlineMeetings) == RowsIn(mid, OnlineMeetings)
  {
    var first := LoadPlan(backup)[..1];
    LoadPlanShape(backup);
    assert first[0] == LoadPlan(backup)[0] && LoadRank(first[0].table) == 0;
    assert !LoadsInto(first, OnlineMeetings);
    LoadPhase(server, mid, first);
  }

  lemma FreedIsAccepted(server: Server, db0: Database, db: Database, once: Database, meeting: Key, backup: Snapshot)
    requires BothCommit(server, db0, db, once, meeting, backup) && Freed(server, db, backup)
    ensures Accepted(server, once, DeletePlan(backup), DirectIndex(backup, OnlineMeetings))
  {
    OnceIsClosed(server, db0, db, once, meeting, backup);
    if !Accepted(server, once, DeletePlan(backup), DirectIndex(backup, OnlineMeetings)) {
      var fk, id := RefusedHasReferrer(server, once, backup, OnlineMeetings);
      RefersToOwn(server, once, backup, fk, id);
      HolderWasThere(server, db0, db, once, meeting, backup, fk, id);
    }
  }

  /** The linked online meeting, left by the first restore, is gone after the second. */
  lemma FreedIsGone(server: Server, db0: Database, db: Database, once: Database, meeting: Key, backup: Snapshot)
    requires BothCommit(server, db0, db, once, meeting, backup) && Freed(server, db, backup)
    ensures var online := Cell(RowsIn(db, Meetings)[meeting], OnlineMeetingId).text;
            && online in RowsIn(once, OnlineMeetings)
            && online !in RowsIn(RestoreOnto(server, once, backup).value, OnlineMeetings)
  {
    var online := Cell(RowsIn(db, Meetings)[meeting], OnlineMeetingId).text;
    OnceIsClosed(server, db0, db, once, meeting, backup);
    OwnOnlineStays(server, db0, db, once, meeting, backup, online);
    FreedIsAccepted(server, db0, db, once, meeting, backup);
    AcceptedIsGone(server, once, backup, online);
    NotBackedUpIsNotThere(server, db, once, backup, online);
  }

  lemma AcceptedIsGone(server: Server, db: Database, backup: Snapshot, id: Key)
    requires NoOrphans(server, db) && RunDeletes(server, db, DeletePlan(backup)).Some?
    requires Accepted(server, db, DeletePlan(backup), DirectIndex(backup, OnlineMeetings))
    requires id in Selected(RowsIn(db, OnlineMeetings), PlanWhere(backup, OnlineMeetings))
    ensures id !in RowsIn(LeftBy(server, db, backup), OnlineMeetings)
  {
    AcceptedLeavesNothing(server, db, DeletePlan(backup), DirectIndex(backup, OnlineMeetings));
    DeletePhase(server, db, DeletePlan(backup));
    KeptIsInside(server, db, AcceptedSteps(server, db, DeletePlan(backup)));
    if id in RowsIn(LeftBy(server, db, backup), OnlineMeetings) {
      SubRow(LeftBy(server, db, backup), db, OnlineMeetings, id);
    }
  }

  lemma NotBackedUpIsNotThere(server: Server, db: Database, once: Database, backup: Snapshot, id: Key)
    requires RestoreOnto(server, db, backup) == Some(once) && RestoreOnto(server, once, backup).Some?
    requires id in RowsIn(LeftBy(server, db, backup), OnlineMeetings) && id !in RowsIn(LeftBy(server, once, backup), OnlineMeetings)
    ensures id !in RowsIn(RestoreOnto(server, once, backup).value, OnlineMeetings)
  {
    LoadPlanShape(backup);
    LoadOf(server, LeftBy(server, db, backup), LoadPlan(backup), LoadRank(OnlineMeetings));
    KeysKept(server, once, DeletePlan(backup));
    if OnlineMeetings in once {
      LoadOf(server, LeftBy(server, once, backup), LoadPlan(backup), LoadRank(OnlineMeetings));
    }
  }

  /**
   When two restores of a meeting in a row commit, the second changes something exactly when the first
   freed the meeting's online meetings: they were held by the meeting's own link alone, and the row put
   back links to none of them.
   */
  lemma SecondRestoreChangesExactlyWhenFreed(server: Server, db0: Database, db: Database, once: Database, meeting: Key, backup: Snapshot)
    requires BothCommit(server, db0, db, once, meeting, backup)
    ensures RestoreOnto(server, once, backup).value != once <==> Freed(server, db, backup)
  {
    if Freed(server, db, backup) {
      FreedIsGone(server, db0, db, once, meeting, backup);
    } else {
      NotFreedRepeats(server, db0, db, once, meeting, backup);
    }
  }

  lemma NotFreedRepeats(server: Server, db0: Database, db: Database, once: Database, meeting: Key, backup: Snapshot)
    requires BothCommit(server, db0, db, once, meeting, backup) && !Freed(server, db, backup)
    ensures RestoreOnto(server, once, backup).value == once
  {
    var plan, loads := DeletePlan(backup), LoadPlan(backup);
    OnceIsClosed(server, db0, db, once, meeting, backup);
    forall i | 0 <= i < |plan| && Accepted(server, once, plan, i) ensures Repeatable(server, db, plan, loads, i) {
      if plan[i].table == OnlineMeetings && LinkedOneWay(server) && LinkedBeforehand(db, meeting) {
        OnlineIsHeld(server, db0, db, once, meeting, backup, i);
      } else {
        StepRepeats(server, db, backup, i);
      }
    }
    SecondRunRepeats(server, db, once, plan, loads);
  }

  lemma OnlineIsHeld(server: Server, db0: Database, db: Database, once: Database, meeting: Key, backup: Snapshot, i: nat)
    requires BothCommit(server, db0, db, once, meeting, backup) && !Freed(server, db, backup)
    requires i < |DeletePlan(backup)| && DeletePlan(backup)[i].table == OnlineMeetings
    requires LinkedOneWay(server) && LinkedBeforehand(db, meeting)
    ensures !Accepted(server, once, DeletePlan(backup), i)
  {
    DeletePlanShape(backup);
    assert StepFits(backup, DeletePlan(backup)[i]);
    TolerantIsDirect(backup, i);
    if OnlineMeetings in server.frozen {
      FrozenIsRefused(server, once, DeletePlan(backup), i);
    } else if LinksToOld(server, db, backup) {
      HeldByBackedUp(server, db0, db, once, meeting, backup);
    } else {
      var fk, id :| Referrer(server, db, backup, OnlineMeetings, fk, id) && !(fk == ONLINE_LINK && id == meeting);
      HeldAgain(server, db0, db, once, meeting, backup, fk, id);
    }
  }
}
