/** What a committed restore of a meeting leaves, table by table. */
module MeetingRestore {
  import opened Prelude
  import opened Relational
  import opened DeleteTheory
  import opened RestoreTheory
  import opened RestoreReadiness
  import opened RestoreAgain
  import opened Connections
  import opened MeetingBackup
  import opened MeetingKeys
  import opened MeetingReady

  /** What the delete phase leaves. */
  ghost function LeftBy(server: Server, db: Database, backup: Snapshot): Database
    requires RunDeletes(server, db, DeletePlan(backup)).Some?
  {
    RunDeletes(server, db, DeletePlan(backup)).value
  }

  /** Rows the delete phase was meant to remove from a table and had to leave. */
  ghost function Leftover(server: Server, db: Database, backup: Snapshot, table: Table): Rows {
    if RunDeletes(server, db, DeletePlan(backup)).Some?
    then Selected(RowsIn(LeftBy(server, db, backup), table), PlanWhere(backup, table)) else map[]
  }

  /** Every backed-up row is one the delete phase looks for. */
  lemma SliceMatchesPlan(db0: Database, meeting: Key, backup: Snapshot, table: Table)
    requires IsBackup(db0, meeting, backup) && Managed(table)
    ensures forall id | id in Slice(db0, meeting, table) ::
              Matches(PlanWhere(backup, table), id, Slice(db0, meeting, table)[id])
  {
  }

  /**
   What a committed restore leaves in a managed table: the rows that were never looked for and stayed,
   any rows a skipped DELETE left behind, and the backed-up rows with their old values, all under
   distinct ids.
   */
  lemma RestoredTable(server: Server, db0: Database, db: Database, meeting: Key, backup: Snapshot, table: Table)
    requires Taken(server, db0, meeting, backup) && RestoreOnto(server, db, backup).Some?
    requires Managed(table) && table in db
    ensures var after := RestoreOnto(server, db, backup).value;
            var others := Unselected(RowsIn(LeftBy(server, db, backup), table), PlanWhere(backup, table));
            var left := Leftover(server, db, backup, table);
            && table in after
            && after[table] == others + left + Slice(db0, meeting, table)
            && (others + left).Keys !! Slice(db0, meeting, table).Keys
  {
    var mid := LeftBy(server, db, backup);
    LoadPlanShape(backup);
    KeysKept(server, db, DeletePlan(backup));
    Split(mid[table], PlanWhere(backup, table));
    LoadOf(server, mid, LoadPlan(backup), LoadRank(table));
    ImageOfBackup(server, db0, table, SliceWhere(db0, meeting, table), RowsOf(backup, table));
  }

  lemma RestoredParts(server: Server, db0: Database, db: Database, meeting: Key, backup: Snapshot, table: Table)
    requires Taken(server, db0, meeting, backup) && RestoreOnto(server, db, backup).Some?
    requires Managed(table) && table in db
    ensures var after, where := RowsIn(RestoreOnto(server, db, backup).value, table), PlanWhere(backup, table);
            && Unselected(after, where) == Unselected(RowsIn(LeftBy(server, db, backup), table), where)
            && (Selected(after, where) == Slice(db0, meeting, table) <==> Leftover(server, db, backup, table) == map[])
  {
    var rows, where := RowsIn(LeftBy(server, db, backup), table), PlanWhere(backup, table);
    RestoredTable(server, db0, db, meeting, backup, table);
    SliceMatchesPlan(db0, meeting, backup, table);
    PartsOf(rows, where, Selected(rows, where), Slice(db0, meeting, table));
  }

  // ---------- everything else stays ----------

  lemma PhaseOf(server: Server, db: Database, backup: Snapshot)
    requires Closed(server, db) && RunDeletes(server, db, DeletePlan(backup)).Some?
    ensures NoOrphans(server, db) && Closed(server, LeftBy(server, db, backup))
    ensures LeftBy(server, db, backup) == Kept(server, db, AcceptedSteps(server, db, DeletePlan(backup)))
    ensures LeftBy(server, db, backup).Keys == db.Keys
    ensures AcceptedSteps(server, db, DeletePlan(backup)) <= StepsOf(DeletePlan(backup))
    ensures Sub(LeftBy(server, db, backup), db)
  {
    ClosedHasNoOrphans(server, db);
    DeletePhase(server, db, DeletePlan(backup));
    DeletesKeepClosed(server, db, DeletePlan(backup));
    KeptIsInside(server, db, AcceptedSteps(server, db, DeletePlan(backup)));
  }

  /** A row the delete phase does not look for stays, unless what it refers to through a cascading key goes. */
  lemma OtherRowStays(server: Server, db: Database, backup: Snapshot, table: Table, id: Key)
    requires Closed(server, db) && RunDeletes(server, db, DeletePlan(backup)).Some? && Managed(table)
    requires id in RowsIn(db, table) && !Matches(PlanWhere(backup, table), id, RowsIn(db, table)[id])
    ensures id in RowsIn(LeftBy(server, db, backup), table) <==>
              !Orphaned(server, LeftBy(server, db, backup), table, db[table][id])
  {
    var steps := AcceptedSteps(server, db, DeletePlan(backup));
    PhaseOf(server, db, backup);
    PlanAimsAt(backup, table, id, db[table][id]);
    KeptExactly(server, db, steps, table, id);
  }

  lemma MeetingStaysExactly(server: Server, db: Database, backup: Snapshot, id: Key)
    requires CascadesInside(server) && Closed(server, db) && RunDeletes(server, db, DeletePlan(backup)).Some?
    ensures id in RowsIn(LeftBy(server, db, backup), Meetings) <==> id in RowsIn(db, Meetings) && id != backup.meeting
  {
    var plan, steps := DeletePlan(backup), AcceptedSteps(server, db, DeletePlan(backup));
    var n := OnlineStepBeforeLast(backup);
    PhaseOf(server, db, backup);
    UntoleratedIsAccepted(server, db, plan, |plan| - 1);
    assert Accepts(server, db, plan, plan[|plan| - 1]) && plan[|plan| - 1] in steps;
    PlanTakesAimed(server, db, backup, steps, Meetings, id);
    if id in RowsIn(db, Meetings) {
      PlanAimsAt(backup, Meetings, id, RowsIn(db, Meetings)[id]);
    }
  }

  /** A participant the delete phase does not look for goes along with a unit that goes. */
  ghost predicate TakenAlong(server: Server, db: Database, backup: Snapshot, cells: Cells) {
    && Cascading(server, PARTICIPANTS_KEY)
    && Cell(cells, MeetingUnitId).Text?
    && Cell(cells, MeetingUnitId).text in Selected(RowsIn(db, MeetingUnits), PlanWhere(backup, MeetingUnits))
    && Leftover(server, db, backup, MeetingUnits) == map[]
  }

  /** The rows of a table that neither the deletes look for nor a cascade takes along. */
  ghost function Untouched(server: Server, db: Database, backup: Snapshot, table: Table): Rows {
    map id | id in RowsIn(db, table) && !Matches(PlanWhere(backup, table), id, RowsIn(db, table)[id])
             && !(table == MeetingParticipants && TakenAlong(server, db, backup, RowsIn(db, table)[id])) :: RowsIn(db, table)[id]
  }

  lemma ParentUnmanagedStays(server: Server, db: Database, backup: Snapshot, fk: ForeignKey)
    requires CascadesInside(server) && Closed(server, db) && RunDeletes(server, db, DeletePlan(backup)).Some?
    requires !Managed(fk.parent)
    ensures RowsIn(LeftBy(server, db, backup), fk.parent) == RowsIn(db, fk.parent)
  {
    var steps := AcceptedSteps(server, db, DeletePlan(backup));
    PhaseOf(server, db, backup);
    PlanSparesOthers(server, backup, steps, fk.parent);
    SparedTableStays(server, db, steps, fk.parent);
  }

  lemma KeyedByOtherMeetingStays(server: Server, db: Database, backup: Snapshot, table: Table, id: Key)
    requires CascadesInside(server) && Closed(server, db) && RunDeletes(server, db, DeletePlan(backup)).Some?
    requires Managed(table) && table != MeetingParticipants
    requires id in RowsIn(db, table) && !Matches(PlanWhere(backup, table), id, RowsIn(db, table)[id])
    ensures id in RowsIn(LeftBy(server, db, backup), table)
  {
    var left, cells := LeftBy(server, db, backup), db[table][id];
    OtherRowStays(server, db, backup, table, id);
    forall fk | Cascading(server, fk) && fk.child == table && Cell(cells, fk.column).Text?
      ensures Cell(cells, fk.column).text in RowsIn(left, fk.parent)
    {
      assert Holds(fk, db) && Cell(cells, fk.column).text in RowsIn(db, fk.parent);
      if Managed(fk.parent) {
        assert fk in {UNITS_KEY, RECURRENCES_KEY};
        assert PlanWhere(backup, table) == ColumnIn(MeetingId, {backup.meeting});
        MeetingStaysExactly(server, db, backup, Cell(cells, fk.column).text);
      } else {
        ParentUnmanagedStays(server, db, backup, fk);
      }
    }
  }

  /** Units the delete phase looks for go together, or not at all. */
  lemma UnitStaysExactly(server: Server, db: Database, backup: Snapshot, id: Key)
    requires CascadesInside(server) && Closed(server, db) && RunDeletes(server, db, DeletePlan(backup)).Some?
    requires id in RowsIn(db, MeetingUnits)
    ensures id in RowsIn(LeftBy(server, db, backup), MeetingUnits) <==>
            !(id in Selected(RowsIn(db, MeetingUnits), PlanWhere(backup, MeetingUnits)) &&
              Leftover(server, db, backup, MeetingUnits) == map[])
  {
    if !Matches(PlanWhere(backup, MeetingUnits), id, RowsIn(db, MeetingUnits)[id]) {
      KeyedByOtherMeetingStays(server, db, backup, MeetingUnits, id);
    } else {
      LeftoverAllOrNothing(server, db, backup, MeetingUnits);
      LookedForStaysExactly(server, db, backup, MeetingUnits, id);
    }
  }

  lemma LookedForStaysExactly(server: Server, db: Database, backup: Snapshot, table: Table, id: Key)
    requires Closed(server, db) && RunDeletes(server, db, DeletePlan(backup)).Some?
    requires id in Selected(RowsIn(db, table), PlanWhere(backup, table))
    ensures id in RowsIn(LeftBy(server, db, backup), table) <==> id in Leftover(server, db, backup, table)
  {
    PhaseOf(server, db, backup);
    if id in RowsIn(LeftBy(server, db, backup), table) {
      SubRow(LeftBy(server, db, backup), db, table, id);
    }
  }

  /** A tolerated DELETE leaves all it was meant to remove or nothing of it. */
  lemma LeftoverAllOrNothing(server: Server, db: Database, backup: Snapshot, table: Table)
    requires CascadesInside(server) && Closed(server, db) && RunDeletes(server, db, DeletePlan(backup)).Some?
    requires Direct(table)
    ensures Leftover(server, db, backup, table) == map[] ||
            Leftover(server, db, backup, table) == Selected(RowsIn(db, table), PlanWhere(backup, table))
    ensures var i := DirectIndex(backup, table);
            Leftover(server, db, backup, table) == map[] <==>
              || Accepted(server, db, DeletePlan(backup), i)
              || Selected(RowsIn(db, table), PlanWhere(backup, table)) == map[]
              || ForeignKey(table, MeetingColumn(table), Meetings) in server.foreignKeys
  {
    var plan, i := DeletePlan(backup), DirectIndex(backup, table);
    var where := PlanWhere(backup, table);
    PhaseOf(server, db, backup);
    LeftoverIsInside(server, db, backup, table);
    if ForeignKey(table, MeetingColumn(table), Meetings) in server.foreignKeys {
      KeyedIsAnchored(server, backup, table);
      AnchoredLeavesNothing(server, db, plan, i);
    } else if Accepted(server, db, plan, i) {
      AcceptedLeavesNothing(server, db, plan, i);
    } else {
      forall id | id in Selected(RowsIn(db, table), where) ensures id in Leftover(server, db, backup, table) {
        RefusedLeaves(server, db, backup, table, id);
      }
      WithinBothWays(Leftover(server, db, backup, table), Selected(RowsIn(db, table), where));
    }
  }

  lemma LeftoverIsInside(server: Server, db: Database, backup: Snapshot, table: Table)
    requires Closed(server, db) && RunDeletes(server, db, DeletePlan(backup)).Some?
    ensures Within(Leftover(server, db, backup, table), Selected(RowsIn(db, table), PlanWhere(backup, table)))
  {
    PhaseOf(server, db, backup);
    forall id | id in Leftover(server, db, backup, table)
      ensures id in RowsIn(db, table) && RowsIn(db, table)[id] == Leftover(server, db, backup, table)[id]
    {
      SubRow(LeftBy(server, db, backup), db, table, id);
    }
  }

  /** Where the DELETE of a directly keyed table stands. */
  function DirectIndex(backup: Snapshot, table: Table): (i: nat)
    requires Direct(table)
    ensures i < |DeletePlan(backup)| && DeletePlan(backup)[i] == DirectStep(backup.meeting, table)
  {
    assert DirectSteps(backup.meeting)[DeleteRank(table) - 2] == DirectStep(backup.meeting, table);
    |UnitSteps(backup)| + DeleteRank(table) - 2
  }

  lemma TolerantIsDirect(backup: Snapshot, i: nat)
    requires i < |DeletePlan(backup)| && DeletePlan(backup)[i].tolerant
    ensures Direct(DeletePlan(backup)[i].table) && i == DirectIndex(backup, DeletePlan(backup)[i].table)
  {
    var plan := DeletePlan(backup);
    DeletePlanShape(backup);
    assert StepFits(backup, plan[i]);
    OneStepATable(plan, i, DirectIndex(backup, plan[i].table));
  }

  lemma OneStepATable(plan: seq<DeleteStep>, i: nat, j: nat)
    requires DistinctDeletes(plan) && i < |plan| && j < |plan| && plan[i].table == plan[j].table
    ensures i == j
  {
  }

  /** Rows keyed by the meeting refer to the meeting row that the last DELETE has to remove. */
  lemma KeyedIsAnchored(server: Server, backup: Snapshot, table: Table)
    requires Direct(table) && ForeignKey(table, MeetingColumn(table), Meetings) in server.foreignKeys
    ensures Anchored(server, DeletePlan(backup), DirectIndex(backup, table))
  {
    var plan, i := DeletePlan(backup), DirectIndex(backup, table);
    var fk, ids := ForeignKey(table, MeetingColumn(table), Meetings), {backup.meeting};
    var n := OnlineStepBeforeLast(backup);
    var j := |plan| - 1;
    assert && fk in server.foreignKeys && fk.child == plan[i].table && plan[i].where == ColumnIn(fk.column, ids)
           && 0 <= j < |plan| && !plan[j].tolerant && plan[j].table == fk.parent && plan[j].where == IdIn(ids);
  }

  lemma RefusedLeaves(server: Server, db: Database, backup: Snapshot, table: Table, id: Key)
    requires CascadesInside(server) && Closed(server, db) && RunDeletes(server, db, DeletePlan(backup)).Some?
    requires Direct(table) && ForeignKey(table, MeetingColumn(table), Meetings) !in server.foreignKeys
    requires !Accepted(server, db, DeletePlan(backup), DirectIndex(backup, table))
    requires id in Selected(RowsIn(db, table), PlanWhere(backup, table))
    ensures id in Leftover(server, db, backup, table)
  {
    PhaseOf(server, db, backup);
    RefusedAimsAtNothing(server, db, backup, table, id, db[table][id]);
    UnkeyedRowStays(server, db, backup, AcceptedSteps(server, db, DeletePlan(backup)), table, id);
    LookedForStaysExactly(server, db, backup, table, id);
  }

  lemma UnkeyedRowStays(server: Server, db: Database, backup: Snapshot, steps: set<DeleteStep>, table: Table, id: Key)
    requires CascadesInside(server) && NoOrphans(server, db) && steps <= StepsOf(DeletePlan(backup))
    requires Direct(table) && ForeignKey(table, MeetingColumn(table), Meetings) !in server.foreignKeys
    requires id in RowsIn(db, table) && !Aimed(steps, table, id, db[table][id])
    ensures id in RowsIn(Kept(server, db, steps), table)
  {
    UnkeyedDoesNotCascade(server, table);
    UnkeyedLosesOnlyAimed(server, db, backup, steps, table, id);
  }

  lemma UnkeyedDoesNotCascade(server: Server, table: Table)
    requires Direct(table) && ForeignKey(table, MeetingColumn(table), Meetings) !in server.foreignKeys
    ensures forall fk | fk in CASCADES && fk.child == table :: !Cascading(server, fk)
  {
  }

  /** A table without an enforced reference along the tree loses just the rows aimed at. */
  lemma UnkeyedLosesOnlyAimed(server: Server, db: Database, backup: Snapshot, steps: set<DeleteStep>, table: Table, id: Key)
    requires CascadesInside(server) && NoOrphans(server, db) && steps <= StepsOf(DeletePlan(backup))
    requires forall fk | fk in CASCADES && fk.child == table :: !Cascading(server, fk)
    ensures id in RowsIn(Kept(server, db, steps), table) <==>
              id in RowsIn(db, table) && !Aimed(steps, table, id, RowsIn(db, table)[id])
  {
    forall fk | Cascading(server, fk) && fk.child == table ensures AllSpare(server, steps, fk.parent) {
      PlanSparesOthers(server, backup, steps, fk.parent);
    }
    TableLosesOnlyAimed(server, db, steps, table, id);
  }

  lemma RefusedAimsAtNothing(server: Server, db: Database, backup: Snapshot, table: Table, id: Key, cells: Cells)
    requires Direct(table) && !Accepted(server, db, DeletePlan(backup), DirectIndex(backup, table))
    ensures !Aimed(AcceptedSteps(server, db, DeletePlan(backup)), table, id, cells)
  {
    var plan, i := DeletePlan(backup), DirectIndex(backup, table);
    DeletePlanShape(backup);
    forall step | Accepts(server, db, plan, step) ensures step.table != table {
      var j :| 0 <= j < |plan| && plan[j] == step && Accepted(server, db, plan, j);
      assert i != j;
    }
  }

  lemma OtherStaysExactly(server: Server, db: Database, backup: Snapshot, table: Table, id: Key)
    requires CascadesInside(server) && Closed(server, db) && RunDeletes(server, db, DeletePlan(backup)).Some?
    requires Managed(table) && id in RowsIn(db, table) && !Matches(PlanWhere(backup, table), id, RowsIn(db, table)[id])
    ensures id in RowsIn(LeftBy(server, db, backup), table) <==> id in Untouched(server, db, backup, table)
  {
    if table == MeetingParticipants {
      ParticipantStaysExactly(server, db, backup, id);
    } else {
      KeyedByOtherMeetingStays(server, db, backup, table, id);
    }
  }

  /** What stays of the rows the delete phase does not look for. */
  lemma OthersStay(server: Server, db: Database, backup: Snapshot, table: Table)
    requires CascadesInside(server) && Closed(server, db) && RunDeletes(server, db, DeletePlan(backup)).Some?
    requires Managed(table)
    ensures Unselected(RowsIn(LeftBy(server, db, backup), table), PlanWhere(backup, table)) == Untouched(server, db, backup, table)
  {
    var left, where := LeftBy(server, db, backup), PlanWhere(backup, table);
    PhaseOf(server, db, backup);
    forall id | id in Unselected(RowsIn(left, table), where)
      ensures id in Untouched(server, db, backup, table) && Untouched(server, db, backup, table)[id] == RowsIn(left, table)[id]
    {
      SubRow(left, db, table, id);
      OtherStaysExactly(server, db, backup, table, id);
    }
    forall id | id in Untouched(server, db, backup, table) ensures id in Unselected(RowsIn(left, table), where) {
      OtherStaysExactly(server, db, backup, table, id);
      SubRow(left, db, table, id);
    }
  }

  lemma ParticipantStaysExactly(server: Server, db: Database, backup: Snapshot, id: Key)
    requires CascadesInside(server) && Closed(server, db) && RunDeletes(server, db, DeletePlan(backup)).Some?
    requires id in RowsIn(db, MeetingParticipants)
    requires !Matches(PlanWhere(backup, MeetingParticipants), id, RowsIn(db, MeetingParticipants)[id])
    ensures id in RowsIn(LeftBy(server, db, backup), MeetingParticipants) <==>
            !TakenAlong(server, db, backup, RowsIn(db, MeetingParticipants)[id])
  {
    var left, cells := LeftBy(server, db, backup), db[MeetingParticipants][id];
    OtherRowStays(server, db, backup, MeetingParticipants, id);
    var unit := Cell(cells, MeetingUnitId);
    if Cascading(server, PARTICIPANTS_KEY) && unit.Text? {
      assert Holds(PARTICIPANTS_KEY, db) && unit.text in RowsIn(db, MeetingUnits);
      UnitStaysExactly(server, db, backup, unit.text);
    }
    forall fk | Cascading(server, fk) && fk.child == MeetingParticipants && fk != PARTICIPANTS_KEY && Cell(cells, fk.column).Text?
      ensures Cell(cells, fk.column).text in RowsIn(left, fk.parent)
    {
      assert Holds(fk, db);
      ParentUnmanagedStays(server, db, backup, fk);
    }
  }

  /**
   A committed restore changes nothing outside the meeting: rows the delete phase does not look for
   stay as they were, but for participants of units that go, and no new ones of that kind appear; other
   tables are not touched at all.
   */
  lemma RestoreLeavesTheRest(server: Server, db0: Database, db: Database, meeting: Key, backup: Snapshot)
    requires Taken(server, db0, meeting, backup) && RestoreOnto(server, db, backup).Some?
    requires CascadesInside(server) && Closed(server, db)
    ensures var after := RestoreOnto(server, db, backup).value;
            && after.Keys == db.Keys
            && (forall table | !Managed(table) :: RowsIn(after, table) == RowsIn(db, table))
            && (forall table | Managed(table) ::
                  Unselected(RowsIn(after, table), PlanWhere(backup, table)) == Untouched(server, db, backup, table))
  {
    var after := RestoreOnto(server, db, backup).value;
    KeysKept(server, db, DeletePlan(backup));
    forall table | !Managed(table) ensures RowsIn(after, table) == RowsIn(db, table) {
      OtherTableKept(server, db, backup, table);
    }
    forall table | Managed(table)
      ensures Unselected(RowsIn(after, table), PlanWhere(backup, table)) == Untouched(server, db, backup, table)
    {
      if table in db {
        RestoredParts(server, db0, db, meeting, backup, table);
        OthersStay(server, db, backup, table);
      }
    }
  }

  lemma OtherTableKept(server: Server, db: Database, backup: Snapshot, table: Table)
    requires RestoreOnto(server, db, backup).Some? && !Managed(table)
    requires CascadesInside(server) && Closed(server, db)
    ensures RowsIn(RestoreOnto(server, db, backup).value, table) == RowsIn(db, table)
  {
    var mid := LeftBy(server, db, backup);
    LoadPlanShape(backup);
    assert !LoadsInto(LoadPlan(backup), table);
    ParentUnmanagedStays(server, db, backup, ForeignKey(table, MeetingId, table));
    LoadPhase(server, mid, LoadPlan(backup));
  }

  // ---------- when a tolerated delete is refused ----------

  /** A row that refers to one the DELETE would take, and is not itself gone by then. */
  ghost predicate Referrer(server: Server, db: Database, backup: Snapshot, table: Table, fk: ForeignKey, id: Key)
    requires Direct(table)
  {
    && RefersInto(server, db, DirectStep(backup.meeting, table), fk, id)
    && (fk == ONLINE_LINK || !Doomed(server, db, DeletePlan(backup), fk.child, id))
  }

  /** The deletes the phase has carried out before it comes to this one. */
  ghost function DoneBefore(server: Server, db: Database, backup: Snapshot, table: Table): set<DeleteStep>
    requires Direct(table)
  {
    AcceptedSteps(server, db, DeletePlan(backup)[..DirectIndex(backup, table)])
  }

  lemma DoneBeforeIsPlanned(server: Server, db: Database, backup: Snapshot, table: Table)
    requires Direct(table)
    ensures forall step | step in DoneBefore(server, db, backup, table) + {DirectStep(backup.meeting, table)} ::
              step in DeletePlan(backup) && step.table != Meetings
  {
    var plan, i := DeletePlan(backup), DirectIndex(backup, table);
    DeletePlanShape(backup);
    forall step | step in DoneBefore(server, db, backup, table) ensures step in plan && step.table != Meetings {
      var j :| 0 <= j < i && plan[..i][j] == step;
      assert plan[j] == step && StepFits(backup, plan[j]);
    }
  }

  /** A referrer blocks the delete. */
  lemma ReferrerIsStray(server: Server, db: Database, backup: Snapshot, table: Table, fk: ForeignKey, id: Key)
    requires CascadesInside(server) && NoOrphans(server, db) && Direct(table) && Referrer(server, db, backup, table, fk, id)
    ensures Stray(server, db, DoneBefore(server, db, backup, table), DirectStep(backup.meeting, table), fk, id)
  {
    var step, before := DirectStep(backup.meeting, table), DoneBefore(server, db, backup, table);
    DoneBeforeIsPlanned(server, db, backup, table);
    if fk == ONLINE_LINK {
      MeetingsStayBefore(server, db, backup, before + {step}, id);
    } else {
      NotDoomedStays(server, db, DeletePlan(backup), before + {step}, fk.child, id);
    }
    KeptRefersInto(server, db, before, step, fk, id);
  }

  lemma MeetingsStayBefore(server: Server, db: Database, backup: Snapshot, steps: set<DeleteStep>, id: Key)
    requires CascadesInside(server) && NoOrphans(server, db) && id in RowsIn(db, Meetings)
    requires forall step | step in steps :: step in DeletePlan(backup) && step.table != Meetings
    ensures id in RowsIn(Kept(server, db, steps), Meetings)
  {
    PlanTakesAimed(server, db, backup, steps, Meetings, id);
  }

  lemma NotDoomedStays(server: Server, db: Database, plan: seq<DeleteStep>, steps: set<DeleteStep>, table: Table, id: Key)
    requires id in RowsIn(db, table) && !Doomed(server, db, plan, table, id)
    requires forall step | step in steps :: step in plan
    ensures id in RowsIn(Kept(server, db, steps), table)
  {
    FewerStepsKeepMore(server, db, steps, StepsOf(plan));
    SubRow(Survivors(server, db, plan), Kept(server, db, steps), table, id);
  }

  lemma KeptRefersInto(server: Server, db: Database, before: set<DeleteStep>, step: DeleteStep, fk: ForeignKey, id: Key)
    requires RefersInto(server, db, step, fk, id) && id in RowsIn(Kept(server, db, before + {step}), fk.child)
    ensures Stray(server, db, before, step, fk, id)
  {
    KeptIsInside(server, db, before + {step});
    SubRow(Kept(server, db, before + {step}), db, fk.child, id);
  }

  lemma StrayRefersInto(server: Server, db: Database, before: set<DeleteStep>, step: DeleteStep, fk: ForeignKey, id: Key)
    requires Stray(server, db, before, step, fk, id)
    ensures RefersInto(server, db, step, fk, id)
    ensures !Cascading(server, fk)
  {
    KeptIsInside(server, db, before + {step});
    SubRow(Kept(server, db, before + {step}), db, fk.child, id);
    if Cascading(server, fk) {
      CascadeTakesChild(server, db, before + {step}, fk, id);
      FewerStepsKeepMore(server, db, {step}, before + {step});
      SubRow(Kept(server, db, before + {step}), Kept(server, db, {step}), fk.parent,
             Cell(RowsIn(Kept(server, db, before + {step}), fk.child)[id], fk.column).text);
    }
  }

  lemma TakenIsReached(server: Server, db: Database, step: DeleteStep, table: Table, id: Key)
    requires CascadesInside(server) && NoOrphans(server, db) && Managed(step.table) && TakenBy(server, db, step, table, id)
    ensures table in Reached(server, step.table)
  {
    if table !in Reached(server, step.table) {
      SparesUnreached(server, step.table, table);
      SparedTableStays(server, db, {step}, table);
    }
  }

  /** Only a referrer blocks the delete: what refers to units is gone by then if it is to go at all. */
  lemma StrayIsReferrer(server: Server, db: Database, backup: Snapshot, table: Table, fk: ForeignKey, id: Key)
    requires MeetingSchema(server) && NoOrphans(server, db) && Direct(table)
    requires RunDeletes(server, db, DeletePlan(backup)).Some?
    requires Stray(server, db, DoneBefore(server, db, backup, table), DirectStep(backup.meeting, table), fk, id)
    ensures Referrer(server, db, backup, table, fk, id)
  {
    var step, before := DirectStep(backup.meeting, table), DoneBefore(server, db, backup, table);
    StrayRefersInto(server, db, before, step, fk, id);
    TakenIsReached(server, db, step, fk.parent, Cell(RowsIn(db, fk.child)[id], fk.column).text);
    if !Managed(fk.child) {
      OutsiderStays(server, db, backup, fk.child);
    } else if fk != ONLINE_LINK {
      RefersToUnits(server, table, fk);
      OfUnitsStays(server, db, backup, fk, id);
    }
  }

  lemma OutsiderStays(server: Server, db: Database, backup: Snapshot, table: Table)
    requires CascadesInside(server) && NoOrphans(server, db) && !Managed(table)
    ensures RowsIn(Survivors(server, db, DeletePlan(backup)), table) == RowsIn(db, table)
  {
    PlanSparesOthers(server, backup, StepsOf(DeletePlan(backup)), table);
    SparedTableStays(server, db, StepsOf(DeletePlan(backup)), table);
  }

  /** Of the directly keyed tables only units are referred to along the tree. */
  lemma RefersToUnits(server: Server, table: Table, fk: ForeignKey)
    requires MeetingSchema(server) && Direct(table) && fk in server.foreignKeys && fk != ONLINE_LINK
    requires Managed(fk.child) && fk.parent in Reached(server, table)
    ensures table == MeetingUnits && fk in TREE && (fk.child == MeetingUnitSeats || fk.child == MeetingParticipants)
  {
    ReachedIsClosed(server, table);
  }

  lemma OfUnitsStays(server: Server, db: Database, backup: Snapshot, fk: ForeignKey, id: Key)
    requires MeetingSchema(server) && NoOrphans(server, db)
    requires RunDeletes(server, db, DeletePlan(backup)).Some?
    requires fk.child == MeetingUnitSeats || fk.child == MeetingParticipants
    requires fk in TREE && fk in server.foreignKeys && !Cascading(server, fk)
    requires id in RowsIn(Kept(server, db, DoneBefore(server, db, backup, MeetingUnits) + {DirectStep(backup.meeting, MeetingUnits)}), fk.child)
    ensures !Doomed(server, db, DeletePlan(backup), fk.child, id)
  {
    var done, steps := DoneBefore(server, db, backup, MeetingUnits) + {DirectStep(backup.meeting, MeetingUnits)}, StepsOf(DeletePlan(backup));
    forall own | own in steps && own.table == fk.child ensures own in done {
      UnitStepsAreDone(server, db, backup, own);
    }
    OwnStepsDone(server, db, backup, done, steps, fk, id);
  }

  lemma OwnStepsDone(server: Server, db: Database, backup: Snapshot, done: set<DeleteStep>, steps: set<DeleteStep>, fk: ForeignKey, id: Key)
    requires CascadesInside(server) && NoOrphans(server, db) && steps <= StepsOf(DeletePlan(backup))
    requires fk.child == MeetingUnitSeats || fk.child == MeetingParticipants
    requires fk in TREE && !Cascading(server, fk)
    requires id in RowsIn(Kept(server, db, done), fk.child)
    requires forall own | own in steps && own.table == fk.child :: own in done
    ensures id in RowsIn(Kept(server, db, steps), fk.child)
  {
    KeptExactly(server, db, done, fk.child, id);
    AimsAtNoMore(steps, done, fk.child, id, RowsIn(db, fk.child)[id]);
    RefusingDoesNotCascade(server, fk);
    UnkeyedLosesOnlyAimed(server, db, backup, steps, fk.child, id);
  }

  lemma AimsAtNoMore(steps: set<DeleteStep>, done: set<DeleteStep>, table: Table, id: Key, cells: Cells)
    requires !Aimed(done, table, id, cells)
    requires forall own | own in steps && own.table == table :: own in done
    ensures !Aimed(steps, table, id, cells)
  {
  }

  lemma RefusingDoesNotCascade(server: Server, fk: ForeignKey)
    requires fk.child == MeetingUnitSeats || fk.child == MeetingParticipants
    requires fk in TREE && !Cascading(server, fk)
    ensures forall other | other in CASCADES && other.child == fk.child :: !Cascading(server, other)
  {
  }

  lemma UnitStepsAreDone(server: Server, db: Database, backup: Snapshot, step: DeleteStep)
    requires RunDeletes(server, db, DeletePlan(backup)).Some? && step in DeletePlan(backup)
    requires step.table == MeetingUnitSeats || step.table == MeetingParticipants
    ensures step in DoneBefore(server, db, backup, MeetingUnits)
  {
    var plan, i := DeletePlan(backup), DirectIndex(backup, MeetingUnits);
    DeletePlanShape(backup);
    var j :| 0 <= j < |plan| && plan[j] == step;
    assert StepFits(backup, plan[j]);
    assert j < i;
    UntoleratedIsAccepted(server, db, plan, j);
    AcceptedInPrefix(server, db, plan, i);
    assert plan[..i][j] == step && Accepted(server, db, plan[..i], j);
    assert Accepts(server, db, plan[..i], step);
  }

  /**
   In a run that goes through, a tolerated DELETE that may write its table is refused exactly when a row
   that is not itself to go refers into what it would take, or the meeting itself does by its link.
   */
  lemma RefusedExactlyWhenReferredTo(server: Server, db: Database, backup: Snapshot, table: Table)
    requires MeetingSchema(server) && Closed(server, db) && RunDeletes(server, db, DeletePlan(backup)).Some?
    requires Direct(table) && table in db && table !in server.frozen
    ensures !Accepted(server, db, DeletePlan(backup), DirectIndex(backup, table)) <==>
            exists fk, id :: Referrer(server, db, backup, table, fk, id)
  {
    if !Accepted(server, db, DeletePlan(backup), DirectIndex(backup, table)) {
      var fk, id := RefusedHasReferrer(server, db, backup, table);
    }
    if fk, id :| Referrer(server, db, backup, table, fk, id) {
      ReferrerRefuses(server, db, backup, table, fk, id);
    }
  }

  lemma RefusedHasReferrer(server: Server, db: Database, backup: Snapshot, table: Table) returns (fk: ForeignKey, id: Key)
    requires MeetingSchema(server) && Closed(server, db) && RunDeletes(server, db, DeletePlan(backup)).Some?
    requires Direct(table) && table in db && table !in server.frozen
    requires !Accepted(server, db, DeletePlan(backup), DirectIndex(backup, table))
    ensures Referrer(server, db, backup, table, fk, id)
  {
    ClosedHasNoOrphans(server, db);
    fk, id := RefusedHasStray(server, db, DeletePlan(backup), DirectIndex(backup, table),
                              DoneBefore(server, db, backup, table), DirectStep(backup.meeting, table));
    StrayIsReferrer(server, db, backup, table, fk, id);
  }

  lemma ReferrerRefuses(server: Server, db: Database, backup: Snapshot, table: Table, fk: ForeignKey, id: Key)
    requires CascadesInside(server) && Closed(server, db) && RunDeletes(server, db, DeletePlan(backup)).Some?
    requires Direct(table) && table in db && table !in server.frozen && Referrer(server, db, backup, table, fk, id)
    ensures !Accepted(server, db, DeletePlan(backup), DirectIndex(backup, table))
  {
    ClosedHasNoOrphans(server, db);
    ReferrerIsStray(server, db, backup, table, fk, id);
    StrayStepRefused(server, db, DeletePlan(backup), DirectIndex(backup, table),
                     DoneBefore(server, db, backup, table), DirectStep(backup.meeting, table), fk, id);
  }

  /** What the referrer refers to, or the unit it hangs on, is left. */
  lemma ReferredIsLeft(server: Server, db: Database, backup: Snapshot, table: Table, fk: ForeignKey, id: Key)
    requires MeetingSchema(server) && Closed(server, db) && RunDeletes(server, db, DeletePlan(backup)).Some?
    requires Direct(table) && !Accepted(server, db, DeletePlan(backup), DirectIndex(backup, table))
    requires Referrer(server, db, backup, table, fk, id)
    ensures Leftover(server, db, backup, table) != map[]
  {
    var parent := Cell(RowsIn(db, fk.child)[id], fk.column).text;
    ClosedHasNoOrphans(server, db);
    TakenIsReached(server, db, DirectStep(backup.meeting, table), fk.parent, parent);
    if fk == ONLINE_LINK {
      LinkIsIntoOnline(server, table);
      RefusedOnlineIsLeft(server, db, backup, parent);
    } else {
      UndoomedParentIsLeft(server, db, backup, fk, id);
      TakenIsHeld(server, db, backup, table, fk.parent, parent);
    }
  }

  lemma LinkIsIntoOnline(server: Server, table: Table)
    requires Direct(table) && OnlineMeetings in Reached(server, table)
    ensures table == OnlineMeetings
  {
  }

  lemma RefusedOnlineIsLeft(server: Server, db: Database, backup: Snapshot, id: Key)
    requires CascadesInside(server) && Closed(server, db) && RunDeletes(server, db, DeletePlan(backup)).Some?
    requires !Accepted(server, db, DeletePlan(backup), DirectIndex(backup, OnlineMeetings))
    requires TakenBy(server, db, DirectStep(backup.meeting, OnlineMeetings), OnlineMeetings, id)
    ensures id in Leftover(server, db, backup, OnlineMeetings)
  {
    PhaseOf(server, db, backup);
    DirectParentsSpared(server, OnlineMeetings);
    TakenIsLookedFor(server, db, backup, OnlineMeetings, id);
    RefusedAimsAtNothing(server, db, backup, OnlineMeetings, id, db[OnlineMeetings][id]);
    PlanTakesAimed(server, db, backup, AcceptedSteps(server, db, DeletePlan(backup)), OnlineMeetings, id);
    LookedForStaysExactly(server, db, backup, OnlineMeetings, id);
  }

  lemma UndoomedParentIsLeft(server: Server, db: Database, backup: Snapshot, fk: ForeignKey, id: Key)
    requires Closed(server, db) && RunDeletes(server, db, DeletePlan(backup)).Some? && fk in server.foreignKeys
    requires id in RowsIn(db, fk.child) && !Doomed(server, db, DeletePlan(backup), fk.child, id)
    requires Cell(RowsIn(db, fk.child)[id], fk.column).Text?
    ensures Cell(RowsIn(db, fk.child)[id], fk.column).text in RowsIn(LeftBy(server, db, backup), fk.parent)
  {
    PhaseOf(server, db, backup);
    NotDoomedStays(server, db, DeletePlan(backup), AcceptedSteps(server, db, DeletePlan(backup)), fk.child, id);
    SubRow(LeftBy(server, db, backup), db, fk.child, id);
    assert Holds(fk, LeftBy(server, db, backup));
  }

  lemma TakenIsLookedFor(server: Server, db: Database, backup: Snapshot, table: Table, id: Key)
    requires NoOrphans(server, db) && Direct(table) && TakenBy(server, db, DirectStep(backup.meeting, table), table, id)
    requires forall fk | fk in server.foreignKeys && fk in server.cascades && fk.child == table :: Spares(server, table, fk.parent)
    ensures id in Selected(RowsIn(db, table), PlanWhere(backup, table))
  {
    var step := DirectStep(backup.meeting, table);
    TableLosesOnlyAimed(server, db, {step}, table, id);
  }

  /** A row that the delete would have taken, and is left, leaves a row it aimed at. */
  lemma TakenIsHeld(server: Server, db: Database, backup: Snapshot, table: Table, other: Table, id: Key)
    requires MeetingSchema(server) && Closed(server, db) && RunDeletes(server, db, DeletePlan(backup)).Some?
    requires Direct(table) && other in Reached(server, table) && TakenBy(server, db, DirectStep(backup.meeting, table), other, id)
    requires id in RowsIn(LeftBy(server, db, backup), other)
    ensures Leftover(server, db, backup, table) != map[]
  {
    ClosedHasNoOrphans(server, db);
    if other == table {
      DirectParentsSpared(server, table);
      TakenIsLookedFor(server, db, backup, table, id);
      LookedForStaysExactly(server, db, backup, table, id);
    } else {
      var unit := ParticipantWithUnit(server, db, backup, id);
      UnitOfLeftIsLeft(server, db, backup, id, unit);
      LookedForStaysExactly(server, db, backup, table, unit);
    }
  }

  lemma UnitOfLeftIsLeft(server: Server, db: Database, backup: Snapshot, id: Key, unit: Key)
    requires Closed(server, db) && RunDeletes(server, db, DeletePlan(backup)).Some? && PARTICIPANTS_KEY in server.foreignKeys
    requires id in RowsIn(LeftBy(server, db, backup), MeetingParticipants) && id in RowsIn(db, MeetingParticipants)
    requires Cell(RowsIn(db, MeetingParticipants)[id], MeetingUnitId) == Text(unit)
    ensures unit in RowsIn(LeftBy(server, db, backup), MeetingUnits)
  {
    PhaseOf(server, db, backup);
    SubRow(LeftBy(server, db, backup), db, MeetingParticipants, id);
    assert Holds(PARTICIPANTS_KEY, LeftBy(server, db, backup));
  }

  lemma DirectParentsSpared(server: Server, table: Table)
    requires CascadesInside(server) && Direct(table)
    ensures forall fk | fk in server.foreignKeys && fk in server.cascades && fk.child == table :: Spares(server, table, fk.parent)
  {
    forall fk | fk in server.foreignKeys && fk in server.cascades && fk.child == table ensures Spares(server, table, fk.parent) {
      ReachedIsClosed(server, table);
      if Managed(fk.parent) {
        assert fk in CASCADES && fk.parent == Meetings;
      }
      SparesUnreached(server, table, fk.parent);
    }
  }

  /** A participant that the delete of units takes hangs on a unit it aims at. */
  lemma ParticipantWithUnit(server: Server, db: Database, backup: Snapshot, id: Key) returns (unit: Key)
    requires CascadesInside(server) && Closed(server, db) && NoOrphans(server, db)
    requires TakenBy(server, db, DirectStep(backup.meeting, MeetingUnits), MeetingParticipants, id)
    ensures PARTICIPANTS_KEY in server.foreignKeys
    ensures Cell(RowsIn(db, MeetingParticipants)[id], MeetingUnitId) == Text(unit)
    ensures unit in Selected(RowsIn(db, MeetingUnits), PlanWhere(backup, MeetingUnits))
  {
    var fk := TakenWithParent(server, db, DirectStep(backup.meeting, MeetingUnits), MeetingParticipants, id);
    unit := Cell(RowsIn(db, MeetingParticipants)[id], fk.column).text;
    TakenIsReached(server, db, DirectStep(backup.meeting, MeetingUnits), fk.parent, unit);
    CascadesFromUnits(server, fk);
    DirectParentsSpared(server, MeetingUnits);
    TakenIsLookedFor(server, db, backup, MeetingUnits, unit);
  }

  lemma CascadesFromUnits(server: Server, fk: ForeignKey)
    requires CascadesInside(server) && Cascading(server, fk) && fk.child == MeetingParticipants
    requires fk.parent in Reached(server, MeetingUnits)
    ensures fk == PARTICIPANTS_KEY
  {
    ReachedIsClosed(server, MeetingUnits);
    assert fk in CASCADES;
  }

  /** A row taken from another table goes with one it refers to. */
  lemma TakenWithParent(server: Server, db: Database, step: DeleteStep, table: Table, id: Key) returns (fk: ForeignKey)
    requires Closed(server, db) && table != step.table && TakenBy(server, db, step, table, id)
    ensures Cascading(server, fk) && fk.child == table && Cell(RowsIn(db, table)[id], fk.column).Text?
    ensures TakenBy(server, db, step, fk.parent, Cell(RowsIn(db, table)[id], fk.column).text)
  {
    var cells := RowsIn(db, table)[id];
    KeptExactly(server, db, {step}, table, id);
    assert forall s | s in {step} :: s.table != table;
    fk :| fk in server.foreignKeys && fk in server.cascades && fk.child == table && Cell(cells, fk.column).Text?
          && Cell(cells, fk.column).text !in RowsIn(Kept(server, db, {step}), fk.parent);
    ParentIsThere(server, db, fk, id);
  }

  lemma ParentIsThere(server: Server, db: Database, fk: ForeignKey, id: Key)
    requires Closed(server, db) && fk in server.foreignKeys && id in RowsIn(db, fk.child)
    requires Cell(RowsIn(db, fk.child)[id], fk.column).Text?
    ensures Cell(RowsIn(db, fk.child)[id], fk.column).text in RowsIn(db, fk.parent)
  {
    assert Holds(fk, db);
  }

  /** In a run that goes through, a delete refused for a reference leaves something. */
  lemma RefusedMeansLeftover(server: Server, db: Database, backup: Snapshot, table: Table)
    requires MeetingSchema(server) && Closed(server, db) && RunDeletes(server, db, DeletePlan(backup)).Some?
    requires Direct(table) && table in db && table !in server.frozen
    requires !Accepted(server, db, DeletePlan(backup), DirectIndex(backup, table))
    ensures Leftover(server, db, backup, table) != map[]
  {
    var fk, id := RefusedHasReferrer(server, db, backup, table);
    ReferredIsLeft(server, db, backup, table, fk, id);
  }

  // ---------- when the meeting's part is the backup ----------

  /** The table has rows to remove and keeps them: nothing holds them to the meeting row, and something holds them back. */
  ghost predicate Blocked(server: Server, db: Database, backup: Snapshot, table: Table) {
    && Direct(table)
    && ForeignKey(table, MeetingColumn(table), Meetings) !in server.foreignKeys
    && Selected(RowsIn(db, table), PlanWhere(backup, table)) != map[]
    && (table in server.frozen || exists fk, id :: Referrer(server, db, backup, table, fk, id))
  }

  lemma FrozenIsRefused(server: Server, db: Database, plan: seq<DeleteStep>, i: nat)
    requires i < |plan| && plan[i].table in server.frozen
    ensures !Accepted(server, db, plan, i)
  {
  }

  lemma LeftoverExactlyWhenBlocked(server: Server, db: Database, backup: Snapshot, table: Table)
    requires MeetingSchema(server) && Closed(server, db) && RunDeletes(server, db, DeletePlan(backup)).Some?
    requires Managed(table) && table in db
    ensures Leftover(server, db, backup, table) != map[] <==> Blocked(server, db, backup, table)
  {
    if Direct(table) {
      LeftoverAllOrNothing(server, db, backup, table);
      if table in server.frozen {
        FrozenIsRefused(server, db, DeletePlan(backup), DirectIndex(backup, table));
      } else {
        RefusedExactlyWhenReferredTo(server, db, backup, table);
      }
    } else {
      NothingLeftUntolerated(server, db, backup, table);
    }
  }

  lemma NothingLeftUntolerated(server: Server, db: Database, backup: Snapshot, table: Table)
    requires Closed(server, db) && RunDeletes(server, db, DeletePlan(backup)).Some? && Managed(table) && !Direct(table)
    ensures Leftover(server, db, backup, table) == map[]
  {
    var plan := DeletePlan(backup);
    DeletePlanShape(backup);
    forall i | 0 <= i < |plan| && plan[i].table == table ensures Accepted(server, db, plan, i) {
      assert StepFits(backup, plan[i]);
      UntoleratedIsAccepted(server, db, plan, i);
    }
    AcceptedMeansNothingLeft(server, db, backup, table);
  }

  lemma AcceptedMeansNothingLeft(server: Server, db: Database, backup: Snapshot, table: Table)
    requires Closed(server, db) && RunDeletes(server, db, DeletePlan(backup)).Some? && Managed(table)
    requires forall i | 0 <= i < |DeletePlan(backup)| && DeletePlan(backup)[i].table == table ::
               Accepted(server, db, DeletePlan(backup), i)
    ensures Leftover(server, db, backup, table) == map[]
  {
    var left := LeftBy(server, db, backup);
    ClosedHasNoOrphans(server, db);
    forall id | id in RowsIn(left, table) ensures !Matches(PlanWhere(backup, table), id, RowsIn(left, table)[id]) {
      StepLeavesNothing(server, db, backup, table, id);
    }
  }

  lemma StepLeavesNothing(server: Server, db: Database, backup: Snapshot, table: Table, id: Key)
    requires NoOrphans(server, db) && RunDeletes(server, db, DeletePlan(backup)).Some? && Managed(table)
    requires forall i | 0 <= i < |DeletePlan(backup)| && DeletePlan(backup)[i].table == table ::
               Accepted(server, db, DeletePlan(backup), i)
    requires id in RowsIn(LeftBy(server, db, backup), table)
    ensures !Matches(PlanWhere(backup, table), id, RowsIn(LeftBy(server, db, backup), table)[id])
  {
    var plan, cells := DeletePlan(backup), RowsIn(LeftBy(server, db, backup), table)[id];
    if Matches(PlanWhere(backup, table), id, cells) {
      var step := PlanHasStep(backup, table, id, cells);
      PlanIsManaged(backup, step);
      var i :| 0 <= i < |plan| && plan[i] == step;
      AcceptedLeavesNothing(server, db, plan, i);
    }
  }

  /**
   Where a table's reference to the meeting is enforced, a commit gives the backed-up part outright: rows
   left behind would have kept the meeting's row, whose delete is not tolerated.
   */
  lemma KeyedByMeetingRestored(server: Server, db0: Database, db: Database, meeting: Key, backup: Snapshot, table: Table)
    requires Taken(server, db0, meeting, backup) && RestoreOnto(server, db, backup).Some? && Closed(server, db)
    requires Direct(table) && table in db && ForeignKey(table, MeetingColumn(table), Meetings) in server.foreignKeys
    ensures Selected(RowsIn(RestoreOnto(server, db, backup).value, table), PlanWhere(backup, table)) == Slice(db0, meeting, table)
  {
    RestoredParts(server, db0, db, meeting, backup, table);
    KeyedIsAnchored(server, backup, table);
    AnchoredLeavesNothing(server, db, DeletePlan(backup), DirectIndex(backup, table));
  }

  /**
   After a commit the meeting's part of a table equals the backup exactly when the table was not blocked.
   Where the rows refer to the meeting itself, through an enforced key, that is in any case: had the
   DELETE been refused, so would have been that of the meeting, and nothing would have been committed.
   */
  lemma RestoredExactlyWhenUnblocked(server: Server, db0: Database, db: Database, meeting: Key, backup: Snapshot, table: Table)
    requires Taken(server, db0, meeting, backup) && RestoreOnto(server, db, backup).Some?
    requires MeetingSchema(server) && Closed(server, db)
    requires Managed(table) && table in db
    ensures Selected(RowsIn(RestoreOnto(server, db, backup).value, table), PlanWhere(backup, table)) ==
            Slice(db0, meeting, table)
            <==> !Blocked(server, db, backup, table)
    ensures ForeignKey(table, MeetingColumn(table), Meetings) in server.foreignKeys ==> !Blocked(server, db, backup, table)
  {
    RestoredParts(server, db0, db, meeting, backup, table);
    LeftoverExactlyWhenBlocked(server, db, backup, table);
  }

  // ---------- the linked online meeting ----------

  /**
   When the server enforces the link, no database lets a meeting that points to a backed-up online
   meeting be restored, cleanly or not: meetings is written first, so the online meeting has to be there
   already, and then its own row is refused as a duplicate.
   */
  lemma LinkedOnlineMeetingAlwaysRollsBack(server: Server, db: Database, backup: Snapshot)
    requires ONLINE_LINK in server.foreignKeys && Closed(server, db)
    requires Meetings in db && OnlineMeetings in db
    requires LinkedInBackup(server, backup) && DistinctIds(RowsOf(backup, Meetings))
    ensures RestoreOnto(server, db, backup).None?
  {
    var plan, loads := DeletePlan(backup), LoadPlan(backup);
    LoadPlanShape(backup);
    if RestoreOnto(server, db, backup).Some? {
      var mid := RunDeletes(server, db, plan).value;
      var n :| 0 <= n < |RowsOf(backup, Meetings)| && LinksBack(server, backup, n);
      var online := Cell(Stored(server, Meetings, RowsOf(backup, Meetings)[n].cells), OnlineMeetingId).text;
      KeysKept(server, db, plan);
      DeletesKeepClosed(server, db, plan);
      OnlineMeetingIsThere(server, mid, backup, n);
      OnlineMeetingIsFree(server, mid, backup, online);
    }
  }

  lemma OnlineMeetingIsThere(server: Server, mid: Database, backup: Snapshot, n: nat)
    requires ONLINE_LINK in server.foreignKeys && Closed(server, mid) && Meetings in mid
    requires n < |RowsOf(backup, Meetings)| && DistinctIds(RowsOf(backup, Meetings))
    requires Cell(Stored(server, Meetings, RowsOf(backup, Meetings)[n].cells), OnlineMeetingId).Text?
    requires RunLoads(server, mid, LoadPlan(backup)).Some?
    ensures RunLoads(server, mid, LoadPlan(backup)[..1]).Some?
    ensures Cell(Stored(server, Meetings, RowsOf(backup, Meetings)[n].cells), OnlineMeetingId).text in
            RowsIn(RunLoads(server, mid, LoadPlan(backup)[..1]).value, OnlineMeetings)
  {
    var loads, row := LoadPlan(backup), RowsOf(backup, Meetings)[n];
    LoadPlanShape(backup);
    LoadsReachPrefix(server, mid, loads, 1);
    LoadsKeepClosed(server, mid, loads[..1]);
    var now := RunLoads(server, mid, loads[..1]).value;
    assert loads[..1][0] == Load(Meetings, RowsOf(backup, Meetings), SkipComputed) by {
      assert LoadRank(Meetings) == 0;
    }
    LoadOf(server, mid, loads[..1], 0);
    ImageAt(server, Meetings, RowsOf(backup, Meetings), n);
    assert RowsIn(now, Meetings)[row.id] == Stored(server, Meetings, row.cells);
    assert Holds(ONLINE_LINK, now);
  }

  lemma OnlineMeetingIsFree(server: Server, mid: Database, backup: Snapshot, online: Key)
    requires OnlineMeetings in mid && RunLoads(server, mid, LoadPlan(backup)).Some?
    requires RunLoads(server, mid, LoadPlan(backup)[..1]).Some? && online in Ids(RowsOf(backup, OnlineMeetings))
    ensures online !in RowsIn(RunLoads(server, mid, LoadPlan(backup)[..1]).value, OnlineMeetings)
  {
    var loads := LoadPlan(backup);
    LoadPlanShape(backup);
    LoadsReachPrefix(server, mid, loads, 2);
    var now := RunLoads(server, mid, loads[..1]).value;
    assert loads[..2][..1] == loads[..1];
    assert loads[..2][1] == Load(OnlineMeetings, RowsOf(backup, OnlineMeetings), SkipComputed) by {
      assert LoadRank(OnlineMeetings) == 1;
    }
    LoadedTable(server, now, loads[1]);
    ImageKeys(server, OnlineMeetings, RowsOf(backup, OnlineMeetings));
  }
}
