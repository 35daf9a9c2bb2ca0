/**
 Which rows belong to a meeting, told from the columns of the tables alone: those the backup lists, and
 those a restore brings back.
 */
module MeetingMembership {
  import opened Prelude
  import opened Relational
  import opened DeleteTheory
  import opened RestoreTheory
  import opened RestoreReadiness
  import opened Connections
  import opened MeetingBackup
  import opened MeetingKeys
  import opened MeetingReady
  import opened MeetingRestore
  import opened MeetingScripts

  // ---------- membership ----------

  /** A file relation of the meeting: minutes or sound of the meeting itself, or an attachment of one of its tasks. */
  ghost predicate Attached(db: Database, meeting: Key, id: Key) {
    || (Has(db, FileRelations, id, ObjectId, meeting)
        && (Has(db, FileRelations, id, ObjectType, "ConclusionMeeting") || Has(db, FileRelations, id, ObjectType, "audioMeeting")))
    || (Has(db, FileRelations, id, ObjectType, "MeetingTask")
        && exists task :: Has(db, MeetingTasks, task, MeetingId, meeting) && Has(db, FileRelations, id, ObjectId, task))
  }

  /** The row of the table under the id is there and belongs to the meeting. */
  ghost predicate BelongsTo(db: Database, meeting: Key, table: Table, id: Key) {
    && table in db && id in db[table]
    && match table
       case Meetings => id == meeting
       case OnlineMeetings | MeetingRecurrences | MeetingUnits | MeetingGuests | MeetingTasks => Has(db, table, id, MeetingId, meeting)
       case WorkItems | Audit => Has(db, table, id, DocumentId, meeting)
       case MeetingUnitSeats | MeetingParticipants =>
         exists unit :: Has(db, MeetingUnits, unit, MeetingId, meeting) && Has(db, table, id, MeetingUnitId, unit)
       case FileRelations => Attached(db, meeting, id)
       case Files => exists relation :: Attached(db, meeting, relation) && Has(db, FileRelations, relation, FileId, id)
       case _ => false
  }

  /** The tables that hold rows of meetings. */
  predicate HoldsMeetings(table: Table) {
    table in {Meetings, OnlineMeetings, MeetingRecurrences, MeetingUnits, MeetingUnitSeats, MeetingParticipants,
              MeetingGuests, MeetingTasks, WorkItems, Audit, FileRelations, Files}
  }

  lemma TasksSliced(db: Database, meeting: Key, task: Key)
    ensures task in Selected(RowsIn(db, MeetingTasks), ColumnIn(MeetingId, {meeting})).Keys <==>
              Has(db, MeetingTasks, task, MeetingId, meeting)
  {
  }

  lemma UnitsSliced(db: Database, meeting: Key, unit: Key)
    ensures unit in Selected(RowsIn(db, MeetingUnits), ColumnIn(MeetingId, {meeting})).Keys <==>
              Has(db, MeetingUnits, unit, MeetingId, meeting)
  {
  }

  lemma RelationsSliced(db: Database, meeting: Key, id: Key)
    ensures id in Slice(db, meeting, FileRelations) <==> Attached(db, meeting, id)
  {
    var tasks := Selected(RowsIn(db, MeetingTasks), ColumnIn(MeetingId, {meeting})).Keys;
    forall task ensures task in tasks <==> Has(db, MeetingTasks, task, MeetingId, meeting) {
      TasksSliced(db, meeting, task);
    }
    if id in RowsIn(db, FileRelations) {
      RelationMatches(db, meeting, tasks, id);
    }
  }

  lemma RelationMatches(db: Database, meeting: Key, tasks: set<Key>, id: Key)
    requires id in RowsIn(db, FileRelations)
    ensures Matches(Either(MeetingFiles(meeting), TaskFiles(tasks)), id, db[FileRelations][id]) <==>
              || (Has(db, FileRelations, id, ObjectId, meeting)
                  && (Has(db, FileRelations, id, ObjectType, "ConclusionMeeting") || Has(db, FileRelations, id, ObjectType, "audioMeeting")))
              || (Has(db, FileRelations, id, ObjectType, "MeetingTask")
                  && exists task :: task in tasks && Has(db, FileRelations, id, ObjectId, task))
  {
    var cells := db[FileRelations][id];
    OneOfTwo(id, cells, ObjectType, "ConclusionMeeting", "audioMeeting");
    OneOf(id, cells, ObjectId, tasks);
    OneOf(id, cells, ObjectId, {meeting});
    OneOf(id, cells, ObjectType, {"MeetingTask"});
    assert forall c, t :: Has(db, FileRelations, id, c, t) <==> Cell(cells, c) == Text(t);
  }

  lemma OneOf(id: Key, cells: Cells, column: Column, texts: set<string>)
    ensures Matches(ColumnIn(column, texts), id, cells) <==> exists t :: t in texts && Cell(cells, column) == Text(t)
  {
  }

  lemma OneOfTwo(id: Key, cells: Cells, column: Column, a: string, b: string)
    ensures Matches(ColumnIn(column, {a, b}), id, cells) <==> Cell(cells, column) == Text(a) || Cell(cells, column) == Text(b)
  {
  }

  /** The slice the backup takes of a table is what belongs to the meeting. */
  lemma SliceIsMembership(db: Database, meeting: Key, table: Table, id: Key)
    requires HoldsMeetings(table)
    ensures id in Slice(db, meeting, table) <==> BelongsTo(db, meeting, table, id)
    ensures id in Slice(db, meeting, table) ==> Slice(db, meeting, table)[id] == db[table][id]
  {
    if table == FileRelations {
      RelationsSliced(db, meeting, id);
    } else if table == Files {
      forall relation ensures relation in Slice(db, meeting, FileRelations) <==> Attached(db, meeting, relation) {
        RelationsSliced(db, meeting, relation);
      }
      FilesSliced(db, meeting, id);
    } else if table == MeetingUnitSeats || table == MeetingParticipants {
      HangsOnUnit(db, meeting, table, id);
    } else {
      KeyedSliced(db, meeting, table, id);
    }
  }

  lemma KeyedSliced(db: Database, meeting: Key, table: Table, id: Key)
    requires table == Meetings || Direct(table)
    ensures id in Slice(db, meeting, table) <==> BelongsTo(db, meeting, table, id)
  {
  }

  lemma HangsOnUnit(db: Database, meeting: Key, table: Table, id: Key)
    requires table == MeetingUnitSeats || table == MeetingParticipants
    ensures id in Slice(db, meeting, table) <==> BelongsTo(db, meeting, table, id)
  {
    var units := Selected(RowsIn(db, MeetingUnits), ColumnIn(MeetingId, {meeting})).Keys;
    forall unit ensures unit in units <==> Has(db, MeetingUnits, unit, MeetingId, meeting) {
      UnitsSliced(db, meeting, unit);
    }
    if id in RowsIn(db, table) {
      OneOf(id, db[table][id], MeetingUnitId, units);
    }
  }

  lemma FilesSliced(db: Database, meeting: Key, id: Key)
    requires forall relation :: relation in Slice(db, meeting, FileRelations) <==> Attached(db, meeting, relation)
    ensures id in Slice(db, meeting, Files) <==>
              id in RowsIn(db, Files)
              && exists relation :: Attached(db, meeting, relation) && Has(db, FileRelations, relation, FileId, id)
  {
    var relations := Slice(db, meeting, FileRelations);
    if id in FileIds(relations) {
      var relation :| relation in relations && Cell(relations[relation], FileId) == Text(id);
      assert Has(db, FileRelations, relation, FileId, id);
    }
    if relation :| Attached(db, meeting, relation) && Has(db, FileRelations, relation, FileId, id) {
      assert relation in relations && Cell(relations[relation], FileId) == Text(id);
    }
  }

  // ---------- what the backup lists ----------

  /** The backup file lists the row under this table, with these cells. */
  ghost predicate Listed(backup: Snapshot, table: Table, id: Key, cells: Cells) {
    table in backup.tables && Record(id, cells) in backup.tables[table]
  }

  /** A backup lists a row exactly when it belongs to the meeting, once, with the cells it has. */
  lemma BackupListsTheMeeting(db: Database, meeting: Key, backup: Snapshot, table: Table, id: Key, cells: Cells)
    requires IsBackup(db, meeting, backup) && HoldsMeetings(table)
    ensures Listed(backup, table, id, cells) <==> BelongsTo(db, meeting, table, id) && db[table][id] == cells
    ensures table in backup.tables ==>
              forall i, j | 0 <= i < j < |backup.tables[table]| :: backup.tables[table][i].id != backup.tables[table][j].id
  {
    assert Managed(table);
    assert Lists(RowsOf(backup, table), Slice(db, meeting, table));
    SliceIsMembership(db, meeting, table, id);
    if Listed(backup, table, id, cells) {
      assert Record(id, cells) in RowsOf(backup, table);
    }
    if BelongsTo(db, meeting, table, id) {
      assert Record(id, Slice(db, meeting, table)[id]) in RowsOf(backup, table);
    }
  }

  /** The backup needs the table of files exactly when an attachment of the meeting names one. */
  lemma FilesAreNeeded(db: Database, meeting: Key)
    ensures FileIds(Slice(db, meeting, FileRelations)) != {} <==>
              exists relation, file :: Attached(db, meeting, relation) && Has(db, FileRelations, relation, FileId, file)
  {
    var relations := Slice(db, meeting, FileRelations);
    HasText(FileIds(relations));
    if file :| file in FileIds(relations) {
      var relation :| relation in relations && Cell(relations[relation], FileId) == Text(file);
      RelationsSliced(db, meeting, relation);
      assert Has(db, FileRelations, relation, FileId, file);
    }
    if relation, file :| Attached(db, meeting, relation) && Has(db, FileRelations, relation, FileId, file) {
      RelationsSliced(db, meeting, relation);
      assert file in FileIds(relations);
    }
  }

  // ---------- what a restore brings back ----------

  /** The row is there with these cells and belongs to the meeting. */
  ghost predicate Held(db: Database, meeting: Key, table: Table, id: Key, cells: Cells) {
    BelongsTo(db, meeting, table, id) && db[table][id] == cells
  }

  lemma SameSliceSameRows(db0: Database, after: Database, meeting: Key, backup: Snapshot, table: Table, id: Key, cells: Cells)
    requires IsBackup(db0, meeting, backup) && HoldsMeetings(table)
    requires Slice(after, meeting, table) == Slice(db0, meeting, table)
    ensures Held(after, meeting, table, id, cells) <==> Listed(backup, table, id, cells)
  {
    BackupListsTheMeeting(db0, meeting, backup, table, id, cells);
    SliceIsMembership(db0, meeting, table, id);
    SliceIsMembership(after, meeting, table, id);
  }

  /** After a restore without a refused statement the meeting's rows are exactly the backed-up ones, attachments aside. */
  lemma CleanRestoreBringsBack(server: Server, db0: Database, db: Database, meeting: Key, backup: Snapshot,
                               table: Table, id: Key, cells: Cells)
    requires Taken(server, db0, meeting, backup) && CascadesInside(server) && Closed(server, db)
    requires forall t | HoldsMeetings(t) :: t in db
    requires Clean(server, db, DeletePlan(backup), LoadPlan(backup))
    requires HoldsMeetings(table) && table != FileRelations && table != Files
    ensures Held(RestoreOnto(server, db, backup).value, meeting, table, id, cells) <==> Listed(backup, table, id, cells)
  {
    assert forall t | Managed(t) :: HoldsMeetings(t);
    SameSlice(server, db0, db, meeting, backup, table);
    SameSliceSameRows(db0, RestoreOnto(server, db, backup).value, meeting, backup, table, id, cells);
  }

  /**
   Of the attachments, and of the files, exactly the rows under a backed-up id are removed, and the
   backed-up rows put in; what was attached to the meeting since the backup stays.
   */
  lemma CleanRestoreOfAttachments(server: Server, db0: Database, db: Database, meeting: Key, backup: Snapshot,
                                  table: Table, id: Key, cells: Cells)
    requires Taken(server, db0, meeting, backup) && CascadesInside(server) && Closed(server, db)
    requires forall t | HoldsMeetings(t) :: t in db
    requires Clean(server, db, DeletePlan(backup), LoadPlan(backup))
    requires table == FileRelations || table == Files
    ensures var after := RestoreOnto(server, db, backup).value;
            && table in after
            && (id in after[table] && after[table][id] == cells <==>
                Listed(backup, table, id, cells)
                || ((forall c :: !Listed(backup, table, id, c)) && table in db && id in db[table] && db[table][id] == cells))
  {
    CleanTable(server, db0, db, meeting, backup, table);
    ListedExactly(db0, meeting, backup, table, id, cells);
    RemovedById(db0, meeting, backup, table, id, cells);
  }

  lemma ListedExactly(db0: Database, meeting: Key, backup: Snapshot, table: Table, id: Key, cells: Cells)
    requires IsBackup(db0, meeting, backup) && Managed(table)
    ensures Listed(backup, table, id, cells) <==> id in Slice(db0, meeting, table) && Slice(db0, meeting, table)[id] == cells
    ensures (exists c :: Listed(backup, table, id, c)) <==> id in Slice(db0, meeting, table)
  {
    var slice := Slice(db0, meeting, table);
    assert Lists(RowsOf(backup, table), slice);
    forall c ensures Listed(backup, table, id, c) <==> id in slice && slice[id] == c {
      if Listed(backup, table, id, c) {
        assert Record(id, c) in RowsOf(backup, table);
      }
    }
    assert id in slice ==> Listed(backup, table, id, slice[id]);
  }

  /** Those two tables are emptied by the ids backed up. */
  lemma RemovedById(db0: Database, meeting: Key, backup: Snapshot, table: Table, id: Key, cells: Cells)
    requires IsBackup(db0, meeting, backup) && (table == FileRelations || table == Files)
    ensures Matches(PlanWhere(backup, table), id, cells) <==> id in Slice(db0, meeting, table)
  {
    assert Lists(RowsOf(backup, table), Slice(db0, meeting, table));
    ListsIds(RowsOf(backup, table), Slice(db0, meeting, table));
    NoRelationsNoFiles(db0, meeting, backup);
  }

  lemma NoRelationsNoFiles(db0: Database, meeting: Key, backup: Snapshot)
    requires IsBackup(db0, meeting, backup)
    ensures RowsOf(backup, FileRelations) == [] ==> Ids(RowsOf(backup, Files)) == {}
  {
    assert Lists(RowsOf(backup, FileRelations), Slice(db0, meeting, FileRelations));
    assert Lists(RowsOf(backup, Files), Slice(db0, meeting, Files));
    ListsIds(RowsOf(backup, FileRelations), Slice(db0, meeting, FileRelations));
    ListsIds(RowsOf(backup, Files), Slice(db0, meeting, Files));
    if RowsOf(backup, FileRelations) == [] {
      assert Ids(RowsOf(backup, FileRelations)) == {};
      assert FileIds(Slice(db0, meeting, FileRelations)) == {};
    }
  }

  /**
   After any committed restore the rows that name the meeting in a table are exactly the backed-up ones, if
   and only if the table was not blocked.
   */
  lemma CommitBringsBackExactlyUnlessBlocked(server: Server, db0: Database, db: Database, meeting: Key, backup: Snapshot, table: Table)
    requires Taken(server, db0, meeting, backup) && RestoreOnto(server, db, backup).Some?
    requires MeetingSchema(server) && Closed(server, db) && table in db
    requires table in {OnlineMeetings, MeetingRecurrences, MeetingUnits, MeetingGuests, MeetingTasks, WorkItems, Audit}
    ensures (forall id, cells :: Held(RestoreOnto(server, db, backup).value, meeting, table, id, cells) <==> Listed(backup, table, id, cells))
            <==> !Blocked(server, db, backup, table)
  {
    var after := RestoreOnto(server, db, backup).value;
    RestoredExactlyWhenUnblocked(server, db0, db, meeting, backup, table);
    assert PlanWhere(backup, table) == SliceWhere(after, meeting, table);
    if Slice(after, meeting, table) == Slice(db0, meeting, table) {
      forall id, cells ensures Held(after, meeting, table, id, cells) <==> Listed(backup, table, id, cells) {
        SameSliceSameRows(db0, after, meeting, backup, table, id, cells);
      }
    } else if forall id, cells :: Held(after, meeting, table, id, cells) <==> Listed(backup, table, id, cells) {
      SameRowsSameSlice(db0, after, meeting, backup, table);
    }
  }

  lemma SameRowsSameSlice(db0: Database, after: Database, meeting: Key, backup: Snapshot, table: Table)
    requires IsBackup(db0, meeting, backup) && HoldsMeetings(table)
    requires forall id, cells :: Held(after, meeting, table, id, cells) <==> Listed(backup, table, id, cells)
    ensures Slice(after, meeting, table) == Slice(db0, meeting, table)
  {
    var a, b := Slice(after, meeting, table), Slice(db0, meeting, table);
    forall id ensures (id in a <==> id in b) && (id in a ==> a[id] == b[id]) {
      SliceIsMembership(after, meeting, table, id);
      SliceIsMembership(db0, meeting, table, id);
      if id in a {
        assert Held(after, meeting, table, id, a[id]);
        BackupListsTheMeeting(db0, meeting, backup, table, id, a[id]);
      }
      if id in b {
        BackupListsTheMeeting(db0, meeting, backup, table, id, b[id]);
        assert Held(after, meeting, table, id, b[id]);
      }
    }
  }
}
