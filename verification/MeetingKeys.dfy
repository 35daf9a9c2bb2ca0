/**
 The references between the tables of a meeting, and which of them carry a delete along. Both table
 orders of the restore follow them, except for the one that leads from meetings to online meetings.
 */
module MeetingKeys {
  import opened Prelude
  import opened Relational
  import opened DeleteTheory
  import opened RestoreTheory
  import opened RestoreReadiness
  import opened MeetingBackup

  const PARTICIPANTS_KEY := ForeignKey(MeetingParticipants, MeetingUnitId, MeetingUnits)
  const UNITS_KEY := ForeignKey(MeetingUnits, MeetingId, Meetings)
  const RECURRENCES_KEY := ForeignKey(MeetingRecurrences, MeetingId, Meetings)
  const ONLINE_KEY := ForeignKey(OnlineMeetings, MeetingId, Meetings)

  /** The references both table orders were written for. */
  const TREE: set<ForeignKey> := {
    PARTICIPANTS_KEY,
    ForeignKey(MeetingUnitSeats, MeetingUnitId, MeetingUnits),
    UNITS_KEY,
    ForeignKey(MeetingTasks, MeetingId, Meetings),
    ForeignKey(MeetingGuests, MeetingId, Meetings),
    RECURRENCES_KEY,
    ONLINE_KEY,
    ForeignKey(FileRelations, FileId, Files)
  }

  /** Those the entities declare ON DELETE CASCADE. */
  const CASCADES: set<ForeignKey> := {PARTICIPANTS_KEY, UNITS_KEY, RECURRENCES_KEY}

  /** The entity declares meetings.online_meeting_id as a reference to online_meetings. */
  const ONLINE_LINK := ForeignKey(Meetings, OnlineMeetingId, OnlineMeetings)

  /** No cascade leads from the meeting's tables anywhere but along the declared ones. */
  ghost predicate CascadesInside(server: Server) {
    forall fk | Cascading(server, fk) && Managed(fk.parent) :: fk in CASCADES
  }

  /** Between managed tables the server knows at most the references above; each may be enforced or not. */
  ghost predicate MeetingSchema(server: Server) {
    && CascadesInside(server)
    && forall fk | fk in server.foreignKeys && Managed(fk.child) && Managed(fk.parent) :: fk in TREE || fk == ONLINE_LINK
  }

  // ---------- how far cascades reach ----------

  function FromUnits(server: Server): set<Table> {
    {MeetingUnits} + if Cascading(server, PARTICIPANTS_KEY) then {MeetingParticipants} else {}
  }

  /** The tables a delete from this one may take rows of. */
  function Reached(server: Server, table: Table): set<Table> {
    if table.MeetingUnits? then FromUnits(server)
    else if table.Meetings? then
      {Meetings}
      + (if Cascading(server, UNITS_KEY) then FromUnits(server) else {})
      + (if Cascading(server, RECURRENCES_KEY) then {MeetingRecurrences} else {})
    else {table}
  }

  lemma ReachedIsClosed(server: Server, table: Table)
    requires CascadesInside(server) && Managed(table)
    ensures table in Reached(server, table) && CascadeClosed(server, Reached(server, table))
    ensures forall t | t in Reached(server, table) :: Managed(t)
  {
    forall fk | Cascading(server, fk) && fk.parent in Reached(server, table) ensures fk.child in Reached(server, table) {
      assert fk in CASCADES;
    }
  }

  lemma SparesUnreached(server: Server, from: Table, to: Table)
    requires CascadesInside(server) && Managed(from) && to !in Reached(server, from)
    ensures Spares(server, from, to)
  {
    ReachedIsClosed(server, from);
  }

  lemma PlanIsManaged(backup: Snapshot, step: DeleteStep)
    requires step in DeletePlan(backup)
    ensures StepFits(backup, step)
  {
    DeletePlanShape(backup);
    var plan := DeletePlan(backup);
    var i :| 0 <= i < |plan| && plan[i] == step;
    assert StepFits(backup, plan[i]);
  }

  /** Tables that are no part of the meeting's lose no row. */
  lemma PlanSparesOthers(server: Server, backup: Snapshot, steps: set<DeleteStep>, table: Table)
    requires CascadesInside(server) && !Managed(table) && steps <= StepsOf(DeletePlan(backup))
    ensures AllSpare(server, steps, table)
  {
    forall step | step in steps ensures Spares(server, step.table, table) {
      PlanIsManaged(backup, step);
      ReachedIsClosed(server, step.table);
      SparesUnreached(server, step.table, table);
    }
  }

  // ---------- the table orders ----------

  /** A reference that does not cascade leads to its table only from that table's own delete. */
  lemma RefusingChildIsReachedAlone(server: Server, fk: ForeignKey, from: Table)
    requires MeetingSchema(server) && fk in server.foreignKeys && !Cascading(server, fk)
    requires fk in TREE && Managed(from) && fk.child in Reached(server, from)
    ensures from == fk.child
  {
  }

  lemma AncestorsGoLater(server: Server, from: Table, table: Table)
    requires Managed(from) && table in Reached(server, from)
    ensures DeleteRank(table) <= DeleteRank(from)
  {
  }

  lemma TreeGoesDown(fk: ForeignKey)
    requires fk in TREE
    ensures DeleteRank(fk.child) < DeleteRank(fk.parent) && LoadRank(fk.parent) < LoadRank(fk.child)
  {
  }

  lemma TreeDeletesFit(server: Server, backup: Snapshot, plan: seq<DeleteStep>, fk: ForeignKey, i: nat, j: nat)
    requires MeetingSchema(server) && Ranked(backup, plan, 0, 12) && i < j < |plan|
    requires fk in server.foreignKeys && fk != ONLINE_LINK && !Cascading(server, fk)
    ensures Spares(server, plan[i].table, fk.parent) || Spares(server, plan[j].table, fk.child)
  {
    assert StepFits(backup, plan[i]) && StepFits(backup, plan[j]);
    ReachedIsClosed(server, plan[i].table);
    ReachedIsClosed(server, plan[j].table);
    if fk.parent !in Reached(server, plan[i].table) {
      SparesUnreached(server, plan[i].table, fk.parent);
    } else if fk.child !in Reached(server, plan[j].table) {
      SparesUnreached(server, plan[j].table, fk.child);
    } else {
      RefusingChildIsReachedAlone(server, fk, plan[j].table);
      AncestorsGoLater(server, plan[i].table, fk.parent);
      TreeGoesDown(fk);
    }
  }

  lemma TreeOrdersFit(server: Server, backup: Snapshot)
    requires MeetingSchema(server)
    ensures OrderFits(server, DeletePlan(backup), LoadPlan(backup), {ONLINE_LINK})
  {
    var plan, loads := DeletePlan(backup), LoadPlan(backup);
    DeletePlanShape(backup);
    LoadPlanShape(backup);
    forall fk, i, j | fk in server.foreignKeys && fk !in {ONLINE_LINK} && !Cascading(server, fk) && 0 <= i < j < |plan|
      ensures Spares(server, plan[i].table, fk.parent) || Spares(server, plan[j].table, fk.child)
    {
      TreeDeletesFit(server, backup, plan, fk, i, j);
    }
    forall fk, k, l | fk in server.foreignKeys && fk !in {ONLINE_LINK} && 0 <= k < |loads| && loads[k].table == fk.child
                      && 0 <= l < |loads| && loads[l].table == fk.parent
      ensures l < k
    {
      TreeGoesDown(fk);
    }
  }

  lemma OnlineStepBeforeLast(backup: Snapshot) returns (i: nat)
    ensures i < |DeletePlan(backup)| - 1 && DeletePlan(backup)[i] == DirectStep(backup.meeting, OnlineMeetings)
    ensures DeletePlan(backup)[|DeletePlan(backup)| - 1] == DeleteStep(Meetings, IdIn({backup.meeting}), false)
  {
    i := |UnitSteps(backup)| + 2;
    assert DirectSteps(backup.meeting)[2] == DirectStep(backup.meeting, OnlineMeetings);
  }

  /**
   Both table orders respect every reference exactly when the server does not enforce the one from
   meetings to online meetings; the others they respect in any case.
   */
  lemma OrdersFitExactlyWhenUnlinked(server: Server, backup: Snapshot)
    requires MeetingSchema(server)
    ensures OrderFits(server, DeletePlan(backup), LoadPlan(backup), {}) <==> ONLINE_LINK !in server.foreignKeys
  {
    var plan, loads := DeletePlan(backup), LoadPlan(backup);
    TreeOrdersFit(server, backup);
    if ONLINE_LINK in server.foreignKeys {
      LoadPlanShape(backup);
      assert loads[LoadRank(Meetings)].table == ONLINE_LINK.child && loads[LoadRank(OnlineMeetings)].table == ONLINE_LINK.parent;
    }
  }
}
