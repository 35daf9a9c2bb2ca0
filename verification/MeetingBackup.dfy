/**
 Backup of one meeting and its restore onto a later database
 (backend_nest/scripts/backup-meeting.js and restore-meeting.js).
 */
module MeetingBackup {
  import opened Prelude
  import opened Relational
  import opened RestoreTheory
  import opened Connections

  /** The backup file. A table that could not be read is absent. */
  datatype Snapshot = Snapshot(meeting: Key, tables: map<Table, seq<Record>>)

  function RowsOf(backup: Snapshot, table: Table): seq<Record> {
    if table in backup.tables then backup.tables[table] else []
  }

  predicate Managed(table: Table) {
    || table.Meetings? || table.OnlineMeetings? || table.MeetingRecurrences? || table.MeetingUnits?
    || table.MeetingUnitSeats? || table.MeetingParticipants? || table.MeetingGuests? || table.MeetingTasks?
    || table.WorkItems? || table.Audit? || table.Files? || table.FileRelations?
  }

  /** Tables keyed by the meeting, with the column that holds its id. */
  predicate Direct(table: Table) {
    || table.OnlineMeetings? || table.MeetingRecurrences? || table.MeetingUnits? || table.MeetingGuests?
    || table.MeetingTasks? || table.WorkItems? || table.Audit?
  }

  function MeetingColumn(table: Table): Column {
    if table.WorkItems? || table.Audit? then DocumentId else MeetingId
  }

  const READ_ORDER: seq<Table> :=
    [OnlineMeetings, MeetingRecurrences, MeetingUnits, MeetingGuests, MeetingTasks, WorkItems, Audit]

  const DELETE_ORDER: seq<Table> :=
    [MeetingUnits, MeetingTasks, OnlineMeetings, MeetingRecurrences, MeetingGuests, WorkItems, Audit]

  const INSERT_ORDER: seq<Table> :=
    [Meetings, OnlineMeetings, MeetingRecurrences, MeetingUnits, MeetingUnitSeats, MeetingParticipants,
     MeetingGuests, MeetingTasks, WorkItems, Audit, Files, FileRelations]

  // ---------- what a backup holds ----------

  /** Attachments of the meeting itself, and of its tasks. */
  function MeetingFiles(meeting: Key): Where {
    Both(ColumnIn(ObjectId, {meeting}), ColumnIn(ObjectType, {"ConclusionMeeting", "audioMeeting"}))
  }

  function TaskFiles(tasks: set<Key>): Where {
    Both(ColumnIn(ObjectId, tasks), ColumnIn(ObjectType, {"MeetingTask"}))
  }

  function FileIds(relations: Rows): set<Key> {
    set id | id in relations && Cell(relations[id], FileId).Text? :: Cell(relations[id], FileId).text
  }

  /** The condition that selects the meeting's part of a table. */
  function SliceWhere(db: Database, meeting: Key, table: Table): Where
    decreases if table.Files? then 2 else if table.FileRelations? then 1 else 0
  {
    if table.Meetings? then IdIn({meeting})
    else if Direct(table) then ColumnIn(MeetingColumn(table), {meeting})
    else if table.MeetingUnitSeats? || table.MeetingParticipants? then
      ColumnIn(MeetingUnitId, Selected(RowsIn(db, MeetingUnits), ColumnIn(MeetingId, {meeting})).Keys)
    else if table.FileRelations? then
      Either(MeetingFiles(meeting),
             TaskFiles(Selected(RowsIn(db, MeetingTasks), ColumnIn(MeetingId, {meeting})).Keys))
    else if table.Files? then
      IdIn(FileIds(Selected(RowsIn(db, FileRelations), SliceWhere(db, meeting, FileRelations))))
    else IdIn({})
  }

  function Slice(db: Database, meeting: Key, table: Table): Rows {
    Selected(RowsIn(db, table), SliceWhere(db, meeting, table))
  }

  /** A complete backup: each managed table lists exactly the meeting's part of it. */
  ghost predicate IsBackup(db: Database, meeting: Key, backup: Snapshot) {
    && backup.meeting == meeting
    && forall table | Managed(table) :: Lists(RowsOf(backup, table), Slice(db, meeting, table))
  }

  // ---------- the restore program ----------

  function UnitSteps(backup: Snapshot): seq<DeleteStep> {
    var units := Ids(RowsOf(backup, MeetingUnits));
    if RowsOf(backup, MeetingUnits) == [] then []
    else [DeleteStep(MeetingParticipants, ColumnIn(MeetingUnitId, units), false),
          DeleteStep(MeetingUnitSeats, ColumnIn(MeetingUnitId, units), false)]
  }

  function DirectStep(meeting: Key, table: Table): DeleteStep {
    DeleteStep(table, ColumnIn(MeetingColumn(table), {meeting}), true)
  }

  function DirectSteps(meeting: Key): seq<DeleteStep> {
    seq(|DELETE_ORDER|, i requires 0 <= i < |DELETE_ORDER| => DirectStep(meeting, DELETE_ORDER[i]))
  }

  function FileSteps(backup: Snapshot): seq<DeleteStep> {
    if RowsOf(backup, FileRelations) == [] then []
    else
      [DeleteStep(FileRelations, IdIn(Ids(RowsOf(backup, FileRelations))), false)]
      + if RowsOf(backup, Files) == [] then [] else [DeleteStep(Files, IdIn(Ids(RowsOf(backup, Files))), false)]
  }

  function DeletePlan(backup: Snapshot): seq<DeleteStep> {
    UnitSteps(backup) + DirectSteps(backup.meeting) + FileSteps(backup)
    + [DeleteStep(Meetings, IdIn({backup.meeting}), false)]
  }

  function LoadPlan(backup: Snapshot): seq<Load> {
    seq(|INSERT_ORDER|, k requires 0 <= k < |INSERT_ORDER| =>
      Load(INSERT_ORDER[k], RowsOf(backup, INSERT_ORDER[k]), SkipComputed))
  }

  // ---------- shape of the program ----------

  function DeleteRank(table: Table): int {
    match table
    case MeetingParticipants => 0
    case MeetingUnitSeats => 1
    case MeetingUnits => 2
    case MeetingTasks => 3
    case OnlineMeetings => 4
    case MeetingRecurrences => 5
    case MeetingGuests => 6
    case WorkItems => 7
    case Audit => 8
    case FileRelations => 9
    case Files => 10
    case Meetings => 11
    case _ => -1
  }

  function LoadRank(table: Table): int {
    match table
    case Meetings => 0
    case OnlineMeetings => 1
    case MeetingRecurrences => 2
    case MeetingUnits => 3
    case MeetingUnitSeats => 4
    case MeetingParticipants => 5
    case MeetingGuests => 6
    case MeetingTasks => 7
    case WorkItems => 8
    case Audit => 9
    case Files => 10
    case FileRelations => 11
    case _ => -1
  }

  /** What the delete phase would remove from a table. */
  function PlanWhere(backup: Snapshot, table: Table): Where {
    if table.Meetings? then IdIn({backup.meeting})
    else if Direct(table) then ColumnIn(MeetingColumn(table), {backup.meeting})
    else if table.MeetingUnitSeats? || table.MeetingParticipants? then
      ColumnIn(MeetingUnitId, Ids(RowsOf(backup, MeetingUnits)))
    else if table.FileRelations? then IdIn(Ids(RowsOf(backup, FileRelations)))
    else if table.Files? && RowsOf(backup, FileRelations) != [] then IdIn(Ids(RowsOf(backup, Files)))
    else IdIn({})
  }

  /** What the steps of the delete phase look like, wherever they stand. */
  ghost predicate StepFits(backup: Snapshot, step: DeleteStep) {
    && Managed(step.table) && step.where == PlanWhere(backup, step.table)
    && (step.tolerant <==> Direct(step.table))
  }

  /** Steps whose tables have ranks in [low, high), in increasing order. */
  ghost predicate Ranked(backup: Snapshot, steps: seq<DeleteStep>, low: int, high: int) {
    && (forall i | 0 <= i < |steps| :: StepFits(backup, steps[i]) && low <= DeleteRank(steps[i].table) < high)
    && (forall i, j | 0 <= i < j < |steps| :: DeleteRank(steps[i].table) < DeleteRank(steps[j].table))
  }

  lemma RankedConcat(backup: Snapshot, a: seq<DeleteStep>, b: seq<DeleteStep>, low: int, mid: int, high: int)
    requires low <= mid <= high && Ranked(backup, a, low, mid) && Ranked(backup, b, mid, high)
    ensures Ranked(backup, a + b, low, high)
  {
  }

  lemma DirectRanks()
    ensures |DELETE_ORDER| == 7
    ensures forall i | 0 <= i < 7 :: Direct(DELETE_ORDER[i]) && DeleteRank(DELETE_ORDER[i]) == i + 2
  {
  }

  lemma DirectStepsRanked(backup: Snapshot)
    ensures Ranked(backup, DirectSteps(backup.meeting), 2, 9)
  {
    DirectRanks();
    var steps := DirectSteps(backup.meeting);
    forall i | 0 <= i < |steps| ensures StepFits(backup, steps[i]) && DeleteRank(steps[i].table) == i + 2 {
      assert steps[i] == DirectStep(backup.meeting, DELETE_ORDER[i]);
    }
  }

  lemma DeletePlanShape(backup: Snapshot)
    ensures Ranked(backup, DeletePlan(backup), 0, 12)
    ensures DistinctDeletes(DeletePlan(backup))
    ensures DeletePlan(backup)[|DeletePlan(backup)| - 1].table == Meetings
  {
    var units, direct, files := UnitSteps(backup), DirectSteps(backup.meeting), FileSteps(backup);
    DirectStepsRanked(backup);
    RankedConcat(backup, units, direct, 0, 2, 9);
    RankedConcat(backup, units + direct, files, 0, 9, 11);
    RankedConcat(backup, units + direct + files, [DeleteStep(Meetings, IdIn({backup.meeting}), false)], 0, 11, 12);
  }

  lemma PlanCovers(backup: Snapshot, table: Table)
    requires Managed(table)
    ensures DeletesFrom(DeletePlan(backup), table) || forall id, cells :: !Matches(PlanWhere(backup, table), id, cells)
  {
    var plan := DeletePlan(backup);
    var units, direct, files := UnitSteps(backup), DirectSteps(backup.meeting), FileSteps(backup);
    if Direct(table) {
      var i := DeleteRank(table) - 2;
      assert direct[i].table == table;
      assert plan[|units| + i].table == table;
    } else if table.MeetingParticipants? || table.MeetingUnitSeats? {
      if units != [] {
        assert plan[DeleteRank(table)].table == table;
      }
    } else if table.Meetings? {
      assert plan[|plan| - 1].table == table;
    } else if |files| > DeleteRank(table) - 9 {
      assert files[DeleteRank(table) - 9].table == table;
      assert plan[|units| + |direct| + DeleteRank(table) - 9].table == table;
    }
  }

  lemma InsertOrderRanks()
    ensures |INSERT_ORDER| == 12
    ensures forall k | 0 <= k < 12 :: LoadRank(INSERT_ORDER[k]) == k && Managed(INSERT_ORDER[k])
    ensures forall table | Managed(table) :: 0 <= LoadRank(table) < 12 && INSERT_ORDER[LoadRank(table)] == table
  {
  }

  lemma LoadPlanShape(backup: Snapshot)
    ensures |LoadPlan(backup)| == 12 && DistinctLoads(LoadPlan(backup))
    ensures forall k | 0 <= k < 12 :: LoadRank(LoadPlan(backup)[k].table) == k && Managed(LoadPlan(backup)[k].table)
    ensures forall table | Managed(table) ::
              LoadPlan(backup)[LoadRank(table)] == Load(table, RowsOf(backup, table), SkipComputed)
  {
    InsertOrderRanks();
  }
}
