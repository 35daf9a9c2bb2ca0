/** The two scripts as programs, and the backup of a restored meeting. */
module MeetingScripts {
  import opened Prelude
  import opened Relational
  import opened DeleteTheory
  import opened RestoreTheory
  import opened RestoreReadiness
  import opened Connections
  import opened MeetingBackup
  import opened MeetingKeys
  import opened MeetingReady
  import opened MeetingRestore

  /** The meeting itself; without it there is nothing to back up. */
  method ReadMeeting(conn: Connection, meeting: Key) returns (rows: Option<seq<Record>>)
    ensures rows.None? <==> meeting !in RowsIn(conn.tables, Meetings)
    ensures rows.Some? ==> Lists(rows.value, Slice(conn.tables, meeting, Meetings))
  {
    if Meetings !in conn.tables {
      return None;
    }
    var found := conn.Select(Meetings, IdIn({meeting}));
    ListsIds(found, Slice(conn.tables, meeting, Meetings));
    assert meeting in RowsIn(conn.tables, Meetings) <==> meeting in Slice(conn.tables, meeting, Meetings);
    if |found| == 0 {
      assert meeting !in Ids(found);
      return None;
    }
    var first := found[0];
    assert first in found && first.id == meeting;
    rows := Some(found);
  }

  method BackupMeeting(conn: Connection, meeting: Key) returns (result: Option<Snapshot>)
    ensures result.Some? ==> IsBackup(conn.tables, meeting, result.value)
    ensures result.None? <==>
              || meeting !in RowsIn(conn.tables, Meetings)
              || (Files !in conn.tables && FileIds(Slice(conn.tables, meeting, FileRelations)) != {})
  {
    var rows := ReadMeeting(conn, meeting);
    if rows.None? {
      return None;
    }
    var direct := ReadDirect(conn, meeting, map[Meetings := rows.value]);
    var units := ReadUnits(conn, meeting, direct);
    ListsIds(Found(direct, MeetingTasks), Slice(conn.tables, meeting, MeetingTasks));
    var relations := ReadRelations(conn, meeting, Ids(Found(units, MeetingTasks)));
    var files := ReadFiles(conn, meeting, relations);
    if files.None? {
      return None;
    }
    result := Some(Snapshot(meeting, units[FileRelations := relations][Files := files.value]));
    Assembled(conn.tables, meeting, direct, units, relations, files.value);
  }

  lemma Assembled(db: Database, meeting: Key, direct: map<Table, seq<Record>>, units: map<Table, seq<Record>>,
                  relations: seq<Record>, files: seq<Record>)
    requires Lists(Found(direct, Meetings), Slice(db, meeting, Meetings))
    requires forall t | Direct(t) :: Lists(Found(direct, t), Slice(db, meeting, t))
    requires forall t | t != MeetingUnitSeats && t != MeetingParticipants :: Found(units, t) == Found(direct, t)
    requires Lists(Found(units, MeetingUnitSeats), Slice(db, meeting, MeetingUnitSeats))
    requires Lists(Found(units, MeetingParticipants), Slice(db, meeting, MeetingParticipants))
    requires Lists(relations, Slice(db, meeting, FileRelations)) && Lists(files, Slice(db, meeting, Files))
    ensures IsBackup(db, meeting, Snapshot(meeting, units[FileRelations := relations][Files := files]))
  {
    var backup := Snapshot(meeting, units[FileRelations := relations][Files := files]);
    forall table | Managed(table) ensures Lists(RowsOf(backup, table), Slice(db, meeting, table)) {
      if table == Files { assert RowsOf(backup, table) == files; }
      else if table == FileRelations { assert RowsOf(backup, table) == relations; }
      else { assert RowsOf(backup, table) == Found(units, table); }
    }
  }

  /** The files the attachments name. This read is not tolerated: a missing table ends the backup. */
  method ReadFiles(conn: Connection, meeting: Key, relations: seq<Record>) returns (files: Option<seq<Record>>)
    requires Lists(relations, Slice(conn.tables, meeting, FileRelations))
    ensures files.Some? ==> Lists(files.value, Slice(conn.tables, meeting, Files))
    ensures files.None? <==> Files !in conn.tables && FileIds(Slice(conn.tables, meeting, FileRelations)) != {}
  {
    var fileIds := FileIdsOf(relations);
    FileIdsAgree(relations, Slice(conn.tables, meeting, FileRelations));
    if fileIds == {} {
      NothingSelected(RowsIn(conn.tables, Files), IdIn(fileIds));
      files := Some([]);
    } else if Files !in conn.tables {
      files := None;
    } else {
      var rows := conn.Select(Files, IdIn(fileIds));
      files := Some(rows);
    }
  }

  function FileIdsOf(relations: seq<Record>): set<Key> {
    set row | row in relations && Cell(row.cells, FileId).Text? :: Cell(row.cells, FileId).text
  }

  lemma FileIdsAgree(relations: seq<Record>, content: Rows)
    requires Lists(relations, content)
    ensures FileIdsOf(relations) == FileIds(content)
  {
  }

  lemma DirectTables()
    ensures forall t :: t in READ_ORDER <==> Direct(t)
    ensures forall i, j | 0 <= i < j < |READ_ORDER| :: READ_ORDER[i] != READ_ORDER[j]
  {
  }

  /** The tables keyed by the meeting; a table that cannot be read is skipped. */
  method ReadDirect(conn: Connection, meeting: Key, before: map<Table, seq<Record>>) returns (data: map<Table, seq<Record>>)
    requires before.Keys == {Meetings} && Lists(before[Meetings], Slice(conn.tables, meeting, Meetings))
    ensures Found(data, Meetings) == before[Meetings]
    ensures forall t | t in data :: t.Meetings? || Direct(t)
    ensures forall t | Direct(t) :: Lists(Found(data, t), Slice(conn.tables, meeting, t))
  {
    DirectTables();
    data := conn.ReadTables(before, READ_ORDER, table => ColumnIn(MeetingColumn(table), {meeting}));
  }

  /** Seats and participants, reached through the ids of the units read before. */
  method ReadUnits(conn: Connection, meeting: Key, before: map<Table, seq<Record>>) returns (data: map<Table, seq<Record>>)
    requires MeetingUnitSeats !in before && MeetingParticipants !in before
    requires Lists(Found(before, MeetingUnits), Slice(conn.tables, meeting, MeetingUnits))
    ensures forall t | t != MeetingUnitSeats && t != MeetingParticipants :: Found(data, t) == Found(before, t)
    ensures Lists(Found(data, MeetingUnitSeats), Slice(conn.tables, meeting, MeetingUnitSeats))
    ensures Lists(Found(data, MeetingParticipants), Slice(conn.tables, meeting, MeetingParticipants))
  {
    var units := Ids(Found(before, MeetingUnits));
    ListsIds(Found(before, MeetingUnits), Slice(conn.tables, meeting, MeetingUnits));
    ghost var where := ColumnIn(MeetingUnitId, units);
    assert SliceWhere(conn.tables, meeting, MeetingUnitSeats) == where;
    assert SliceWhere(conn.tables, meeting, MeetingParticipants) == where;
    if units != {} {
      var seats := conn.ReadInto(before, MeetingUnitSeats, ColumnIn(MeetingUnitId, units));
      data := conn.ReadInto(seats, MeetingParticipants, ColumnIn(MeetingUnitId, units));
      assert Found(data, MeetingUnitSeats) == Found(seats, MeetingUnitSeats);
      assert forall t | t != MeetingUnitSeats :: Found(seats, t) == Found(before, t);
    } else {
      data := before[MeetingUnitSeats := []][MeetingParticipants := []];
      NothingSelected(RowsIn(conn.tables, MeetingUnitSeats), where);
      NothingSelected(RowsIn(conn.tables, MeetingParticipants), where);
    }
  }

  /** Attachments of the meeting, then of its tasks, pushed into one list. */
  method ReadRelations(conn: Connection, meeting: Key, tasks: set<Key>) returns (relations: seq<Record>)
    requires tasks == Slice(conn.tables, meeting, MeetingTasks).Keys
    ensures Lists(relations, Slice(conn.tables, meeting, FileRelations))
  {
    relations := [];
    var ofTasks := [];
    if FileRelations in conn.tables {
      relations := conn.Select(FileRelations, MeetingFiles(meeting));
      if tasks != {} {
        ofTasks := conn.Select(FileRelations, TaskFiles(tasks));
      }
    }
    RelationsSplit(RowsIn(conn.tables, FileRelations), meeting, tasks);
    if tasks == {} {
      NothingSelected(RowsIn(conn.tables, FileRelations), TaskFiles(tasks));
    }
    ListsBoth(relations, ofTasks, Selected(RowsIn(conn.tables, FileRelations), MeetingFiles(meeting)),
              Selected(RowsIn(conn.tables, FileRelations), TaskFiles(tasks)),
              Slice(conn.tables, meeting, FileRelations));
    relations := relations + ofTasks;
  }

  /** Attachments of the meeting and of its tasks carry different object types. */
  lemma RelationsSplit(rows: Rows, meeting: Key, tasks: set<Key>)
    ensures Selected(rows, MeetingFiles(meeting)).Keys !! Selected(rows, TaskFiles(tasks)).Keys
    ensures Selected(rows, Either(MeetingFiles(meeting), TaskFiles(tasks))) ==
            Selected(rows, MeetingFiles(meeting)) + Selected(rows, TaskFiles(tasks))
  {
    var task, conclusion, audio := "MeetingTask", "ConclusionMeeting", "audioMeeting";
    assert |task| != |conclusion| && |task| != |audio|;
    forall id | id in Selected(rows, TaskFiles(tasks)) ensures Cell(rows[id], ObjectType) == Text(task) {
      assert Matches(ColumnIn(ObjectType, {task}), id, rows[id]);
    }
    forall id | id in Selected(rows, MeetingFiles(meeting))
      ensures Cell(rows[id], ObjectType) == Text(conclusion) || Cell(rows[id], ObjectType) == Text(audio)
    {
      assert Matches(ColumnIn(ObjectType, {conclusion, audio}), id, rows[id]);
    }
  }

  lemma ListsBoth(first: seq<Record>, second: seq<Record>, a: Rows, b: Rows, both: Rows)
    requires Lists(first, a) && Lists(second, b) && a.Keys !! b.Keys && both == a + b
    ensures Lists(first + second, both)
  {
  }

  /** The restore: delete children first, reinsert parents first, commit, or roll everything back. */
  method RestoreMeeting(conn: Connection, backup: Snapshot) returns (committed: bool)
    modifies conn
    ensures committed <==> RestoreOnto(conn.server, old(conn.tables), backup).Some?
    ensures conn.tables == AfterRestore(conn.server, old(conn.tables), DeletePlan(backup), LoadPlan(backup))
  {
    var before := conn.tables;
    committed := DeleteMeeting(conn, backup);
    if committed {
      committed := InsertMeeting(conn, backup);
    }
    if !committed {
      conn.tables := before;
    }
  }

  method DeleteMeeting(conn: Connection, backup: Snapshot) returns (ok: bool)
    modifies conn`tables
    ensures ok <==> RunDeletes(conn.server, old(conn.tables), DeletePlan(backup)).Some?
    ensures ok ==> RunDeletes(conn.server, old(conn.tables), DeletePlan(backup)) == Some(conn.tables)
  {
    ghost var start := conn.tables;
    ghost var plan := DeletePlan(backup);
    ghost var done: seq<DeleteStep> := [];
    var units := UnitSteps(backup);
    ok, done := conn.DeleteAll(start, done, units, plan);
    if !ok { return; }
    ok, done := conn.DeleteAll(start, done, DirectSteps(backup.meeting), plan);
    if !ok { return; }
    ok, done := conn.DeleteAll(start, done, FileSteps(backup), plan);
    if !ok { return; }
    ok, done := conn.DeleteAll(start, done, [DeleteStep(Meetings, IdIn({backup.meeting}), false)], plan);
    assert ok ==> done == plan;
  }

  method InsertMeeting(conn: Connection, backup: Snapshot) returns (ok: bool)
    modifies conn`tables
    ensures ok <==> RunLoads(conn.server, old(conn.tables), LoadPlan(backup)).Some?
    ensures ok ==> RunLoads(conn.server, old(conn.tables), LoadPlan(backup)) == Some(conn.tables)
  {
    ghost var start := conn.tables;
    ghost var loads := LoadPlan(backup);
    var k := 0;
    ok := true;
    while k < |INSERT_ORDER|
      invariant 0 <= k <= |INSERT_ORDER|
      invariant RunLoads(conn.server, start, loads[..k]) == Some(conn.tables)
    {
      var load := Load(INSERT_ORDER[k], RowsOf(backup, INSERT_ORDER[k]), SkipComputed);
      assert loads[..k + 1] == loads[..k] + [load];
      ok := conn.WriteAll(start, loads[..k], load);
      if !ok {
        LoadsStop(conn.server, start, loads, k + 1);
        return;
      }
      k := k + 1;
    }
    assert loads[..k] == loads;
  }

  // ---------- backing up what was restored ----------

  /** No attachment of the meeting or of its tasks was added since the backup. */
  ghost predicate NoNewAttachment(db: Database, backup: Snapshot) {
    var mine := Either(MeetingFiles(backup.meeting), TaskFiles(Ids(RowsOf(backup, MeetingTasks))));
    forall id | id in Selected(RowsIn(db, FileRelations), mine) :: id in Ids(RowsOf(backup, FileRelations))
  }

  /** No file that a backed-up attachment names, but the backup lacks, has appeared since. */
  ghost predicate NoNewFile(db: Database, backup: Snapshot) {
    forall id | id in RowsIn(db, Files) && id in FileIdsOf(RowsOf(backup, FileRelations)) ::
      id in Ids(RowsOf(backup, Files))
  }

  /**
   After a clean restore, backing the meeting up again gives the same backup exactly when nobody
   added an attachment, or a file an old attachment was missing, in between: those two tables are
   emptied by id, not by meeting.
   */
  lemma BackupOfRestored(server: Server, db0: Database, db: Database, meeting: Key, backup: Snapshot)
    requires Taken(server, db0, meeting, backup) && CascadesInside(server) && Closed(server, db)
    requires forall table | Managed(table) :: table in db
    requires Clean(server, db, DeletePlan(backup), LoadPlan(backup))
    ensures IsBackup(RestoreOnto(server, db, backup).value, meeting, backup) <==>
            NoNewAttachment(db, backup) && NoNewFile(db, backup)
  {
    var after := RestoreOnto(server, db, backup).value;
    RestoreLeavesTheRest(server, db0, db, meeting, backup);
    forall table | Managed(table) && table != FileRelations && table != Files
      ensures Slice(after, meeting, table) == Slice(db0, meeting, table)
    {
      SameSlice(server, db0, db, meeting, backup, table);
    }
    CleanTable(server, db0, db, meeting, backup, FileRelations);
    CleanTable(server, db0, db, meeting, backup, Files);
    SameRelations(db0, db, after, meeting, backup);
    if Slice(after, meeting, FileRelations) == Slice(db0, meeting, FileRelations) {
      SameFiles(db0, db, after, meeting, backup);
    }
    BackupMeansSameSlices(db0, after, meeting, backup);
  }

  lemma BackupMeansSameSlices(db0: Database, after: Database, meeting: Key, backup: Snapshot)
    requires IsBackup(db0, meeting, backup)
    ensures IsBackup(after, meeting, backup) <==>
            forall table | Managed(table) :: Slice(after, meeting, table) == Slice(db0, meeting, table)
  {
  }

  /** A table the cascades do not reach holds the rows never looked for and the backed-up ones. */
  lemma CleanTable(server: Server, db0: Database, db: Database, meeting: Key, backup: Snapshot, table: Table)
    requires Taken(server, db0, meeting, backup) && CascadesInside(server) && Closed(server, db)
    requires Managed(table) && table in db && table != MeetingParticipants
    requires Clean(server, db, DeletePlan(backup), LoadPlan(backup))
    ensures table in RestoreOnto(server, db, backup).value
    ensures RestoreOnto(server, db, backup).value[table] ==
            Unselected(db[table], PlanWhere(backup, table)) + Slice(db0, meeting, table)
  {
    RestoredTable(server, db0, db, meeting, backup, table);
    NothingLeft(server, db, backup, table);
    OthersStay(server, db, backup, table);
    OnlyParticipantsGoAlong(server, db, backup, table);
    PlusNothing(Unselected(db[table], PlanWhere(backup, table)));
  }

  lemma OnlyParticipantsGoAlong(server: Server, db: Database, backup: Snapshot, table: Table)
    requires table != MeetingParticipants
    ensures Untouched(server, db, backup, table) == Unselected(RowsIn(db, table), PlanWhere(backup, table))
  {
  }

  lemma NothingLeft(server: Server, db: Database, backup: Snapshot, table: Table)
    requires Closed(server, db) && Managed(table) && Clean(server, db, DeletePlan(backup), LoadPlan(backup))
    ensures Leftover(server, db, backup, table) == map[]
  {
    AcceptedMeansNothingLeft(server, db, backup, table);
  }

  lemma PlusNothing(rows: Rows)
    ensures rows + map[] == rows
  {
  }

  lemma SameSlice(server: Server, db0: Database, db: Database, meeting: Key, backup: Snapshot, table: Table)
    requires Taken(server, db0, meeting, backup) && Closed(server, db)
    requires forall t | Managed(t) :: t in db
    requires Clean(server, db, DeletePlan(backup), LoadPlan(backup))
    requires Managed(table) && table != FileRelations && table != Files
    ensures Slice(RestoreOnto(server, db, backup).value, meeting, table) == Slice(db0, meeting, table)
  {
    var after := RestoreOnto(server, db, backup).value;
    PlanPart(server, db0, db, meeting, backup, table);
    PlanPart(server, db0, db, meeting, backup, MeetingUnits);
    ListsIds(RowsOf(backup, MeetingUnits), Slice(db0, meeting, MeetingUnits));
    assert PlanWhere(backup, MeetingUnits) == SliceWhere(after, meeting, MeetingUnits);
    assert PlanWhere(backup, table) == SliceWhere(after, meeting, table);
  }

  lemma PlanPart(server: Server, db0: Database, db: Database, meeting: Key, backup: Snapshot, table: Table)
    requires Taken(server, db0, meeting, backup) && Closed(server, db) && Managed(table) && table in db
    requires Clean(server, db, DeletePlan(backup), LoadPlan(backup))
    ensures Selected(RowsIn(RestoreOnto(server, db, backup).value, table), PlanWhere(backup, table)) ==
            Slice(db0, meeting, table)
  {
    RestoredParts(server, db0, db, meeting, backup, table);
    NothingLeft(server, db, backup, table);
  }

  lemma SameRelations(db0: Database, db: Database, after: Database, meeting: Key, backup: Snapshot)
    requires IsBackup(db0, meeting, backup) && FileRelations in db && FileRelations in after
    requires Slice(after, meeting, MeetingTasks) == Slice(db0, meeting, MeetingTasks)
    requires after[FileRelations] ==
             Unselected(db[FileRelations], PlanWhere(backup, FileRelations)) + Slice(db0, meeting, FileRelations)
    ensures Slice(after, meeting, FileRelations) == Slice(db0, meeting, FileRelations) <==> NoNewAttachment(db, backup)
  {
    ListsIds(RowsOf(backup, MeetingTasks), Slice(db0, meeting, MeetingTasks));
    ListsIds(RowsOf(backup, FileRelations), Slice(db0, meeting, FileRelations));
    var mine := Either(MeetingFiles(meeting), TaskFiles(Ids(RowsOf(backup, MeetingTasks))));
    assert SliceWhere(after, meeting, FileRelations) == mine == SliceWhere(db0, meeting, FileRelations);
    OnlyTheBackedUp(db[FileRelations], RowsOf(backup, FileRelations), mine, Slice(db0, meeting, FileRelations));
  }

  /** Rows kept besides the backed-up ids match `mine` nowhere, exactly when the old match is all there is. */
  lemma OnlyTheBackedUp(rows: Rows, listed: seq<Record>, mine: Where, slice: Rows)
    requires Ids(listed) == slice.Keys
    requires forall id | id in slice :: Matches(mine, id, slice[id])
    ensures Selected(Unselected(rows, IdIn(Ids(listed))) + slice, mine) == slice <==>
            forall id | id in Selected(rows, mine) :: id in Ids(listed)
  {
  }

  lemma SameFiles(db0: Database, db: Database, after: Database, meeting: Key, backup: Snapshot)
    requires IsBackup(db0, meeting, backup) && Files in db && Files in after
    requires Slice(after, meeting, FileRelations) == Slice(db0, meeting, FileRelations)
    requires after[Files] == Unselected(db[Files], PlanWhere(backup, Files)) + Slice(db0, meeting, Files)
    ensures Slice(after, meeting, Files) == Slice(db0, meeting, Files) <==> NoNewFile(db, backup)
  {
    ListsIds(RowsOf(backup, Files), Slice(db0, meeting, Files));
    FileIdsAgree(RowsOf(backup, FileRelations), Slice(db0, meeting, FileRelations));
    var mine := IdIn(FileIdsOf(RowsOf(backup, FileRelations)));
    assert SliceWhere(after, meeting, Files) == mine == SliceWhere(db0, meeting, Files);
    if RowsOf(backup, FileRelations) == [] {
      assert Slice(db0, meeting, Files) == map[];
      assert Unselected(db[Files], PlanWhere(backup, Files)) == Unselected(db[Files], IdIn(Ids(RowsOf(backup, Files))));
    }
    OnlyTheBackedUp(db[Files], RowsOf(backup, Files), mine, Slice(db0, meeting, Files));
  }
}
