# Verified model of the office back end

This project models the state-keeping logic of the eOffice back end in Dafny and proves what its services
and maintenance scripts promise. The database is a set of in-memory tables held by classes; every service
call is one sequential step; DNS, TCP probes, clocks, generated identifiers and collations are parameters.
Where a property turned out to hold only under a condition, the condition is stated on the input (what a
caller can check before the call) and proved both necessary and sufficient, with a concrete failing case
beside it.

| file | what it models |
|---|---|
| `Relational`, `DeleteTheory`, `RestoreTheory`, `RestoreReadiness`, `RestoreAgain`, `Connections` | a small relational server (foreign keys that refuse or cascade, computed columns, transactions) and the theory of delete-and-reinsert programs: what they leave, when no statement is refused, when running one twice is running it once |
| `MeetingBackup`, `MeetingMembership`, `MeetingKeys`, `MeetingReady`, `MeetingRestore`, `MeetingAgain`, `MeetingRoundTrip`, `MeetingScripts` | backup and restore of one meeting with its indirect slices, under the references the entities declare |
| `PassportBackup`, `PassportMembership`, `PassportRoundTrip`, `PassportScripts` | backup and restore of a passport request, with update-or-insert of passports |
| `SmallRuns`, `MeetingWitnesses`, `PassportWitnesses` | concrete databases on which a restore leaves rows behind, or a second restore changes the result of the first |
| `Decimals`, `ArchiveNumbers` | decimal printing, padding and string order, and the numbering HS-YYYY-XXXX |
| `ArchiveItems`, `ItemFiles`, `DocumentIndexes` | the reconcilers of archive records and archives |
| `BookNumbers`, `BookDefaults` | first free book number and reservations; default and certified books |
| `Calendar`, `Birthdays`, `StableSort` | section 21.4.1 of ECMA-262 on day numbers, birthday ranges and list |
| `Recipients`, `Announcements` | recipients, read rows and the life cycle of announcements |
| `Delegations` | delegations of authority under two conflict checks |
| `Blocks` | page blocks with soft deletion as a keyed ordered map |
| `Failover` | boot precheck, failover monitor, wait loop |
| `FormatErrors` | flattening of a validation-error tree |
| `AuthConfigs` | the one active authentication configuration |
| `Roles`, `Uniques`, `Positions` | grouping and merging of roles by process; first appearances and picked positions |
| `Prelude` | options, trimming |

Main findings, each proved in the members named:

- A meeting whose row points to a backed-up online meeting can never be restored while the server enforces
  that reference (`MeetingRestore.LinkedOnlineMeetingAlwaysRollsBack`): the insert order writes `meetings` first.
  With the reference a restore is free of refusals exactly when the target is ready and neither the row found nor
  a backed-up one has such a link (`MeetingReady.RestoreIsCleanExactlyWhenReady`).
- A tolerated DELETE may leave rows behind although the restore commits. Tables whose rows refer to the meeting,
  or the request, through an enforced key come back as the backup outright
  (`MeetingRestore.KeyedByMeetingRestored`, `PassportBackup.KeyedByRequestRestored`); the others exactly when they
  may be written and no row that stays refers into what is to go, or there is nothing to go
  (`MeetingRestore.RestoredExactlyWhenUnblocked`, `PassportBackup.ReinsertedExactlyUnlessStuck`). For `work_items`
  and `audit` a database is given on which a commit leaves a row (`MeetingWitnesses.RowLeftBehind`,
  `PassportWitnesses.RowLeftBehind`).
- Restoring a meeting twice is restoring it once but for one case: online meetings held by nothing but the link of
  the meeting row that is replaced are removed by the second restore only
  (`MeetingAgain.SecondRestoreChangesExactlyWhenFreed`, `MeetingWitnesses.SecondRestoreRemoves`).
- The driver hands `bigint` identifiers over as text, and the record update compares them with numbers: the file
  sets still come out right, but replaying a payload rewrites every link, and only repeated files that are
  recognised as linked stay single (`ArchiveItems.ReplayIsQuietExactly`, `ArchiveItems.TextReplayRewrites`,
  `ItemFiles.UpdateKeepsOneLinkEachExactlyWhen`).
- Archive numbers collide exactly when the greatest string of the year is all nines (four digits or more) and its
  successor is in use (`ArchiveNumbers.IssuedIsNewUnlessExhausted`), and a run keeps them distinct exactly as long
  as it drafts in no such year (`ArchiveNumbers.RunKeepsNumbersDistinct`).
- A default book may get a rival through an untrimmed type, year 0, or an unflagged change of its group; a refused
  creation has already cleared the old default (`BookDefaults`).
- Creating an active authentication configuration under a type only a deleted row holds leaves none active
  (`AuthConfigs.CreateUnderDeletedType`).
- An edit by someone else can make two delegations of one author overlap, because the author check looks up the
  editor (`Delegations.UpdateKeepsAuthorsExactlyWhen`); a deleted delegation stays in force
  (`Delegations.DeletedStaysInForce`). A forced end cannot break either rule at any time, because it takes the row
  out of the running stage.
- Nothing sends a scheduled announcement when its time comes: it stays scheduled until it is deleted or updated
  with a schedule field that is present but empty, however late that is (`Announcements.ScheduledUntilReleased`).
- For dates in the years 0 to 99 the month view shows the month 1900 years later
  (`Birthdays.MonthContainsBaseExactlyWhen`).
- With no writable address and two open ones the failover monitor alternates for ever (`Failover.MonitorFlaps`);
  in every other case it settles after one tick (`Failover.MonitorSettlesExactlyWhen`).

Every `*Service`, `Connection` and `FailoverMonitor` method is proved against a specification function; the
lemmas are about those functions, so they carry over to the methods.
For each call a lemma `StoredAfter...`, and for the backups a lemma of the `Membership` modules, says what is
stored, listed or answered by columns, fields and literals alone, without the function that computes it.

## Model

| member | source | states |
|---|---|---|
| MeetingScripts.BackupMeeting | backend_nest/scripts/backup-meeting.js:44-163 | the snapshot lists exactly the meeting's slice of every table, also through unit, task and file ids; it fails exactly when the meeting is not there or needed files cannot be read |
| MeetingMembership.BackupListsTheMeeting | backend_nest/scripts/backup-meeting.js:46-160 | by columns and literals: a backup lists a row, once and as it is, if and only if it is the meeting's: meeting_id, document_id, a unit of the meeting, minutes or sound of the meeting or an attachment of its task, or a file such an attachment names |
| MeetingMembership.FilesAreNeeded | backend_nest/scripts/backup-meeting.js:148-160 | the table of files is needed if and only if an attachment of the meeting or of its tasks names a file |
| MeetingScripts.RestoreMeeting | backend_nest/scripts/restore-meeting.js:48-213 | commits exactly when the program of deletes and inserts goes through, and otherwise leaves the very database it started from |
| MeetingScripts.DeleteMeeting | backend_nest/scripts/restore-meeting.js:54-113 | the delete phase, children first, with the seven tolerated deletes |
| MeetingScripts.InsertMeeting | backend_nest/scripts/restore-meeting.js:117-203 | the insert phase, parents first, skipping missing tables and computed columns |
| MeetingScripts.BackupOfRestored | backend_nest/scripts/restore-meeting.js:48-205 | backing up a cleanly restored meeting gives the same backup exactly when no attachment and no missing file has been added since |
| MeetingMembership.CleanRestoreBringsBack | backend_nest/scripts/restore-meeting.js:54-203 | after a restore without a refused statement the rows that name the meeting are exactly the backed-up ones |
| MeetingMembership.CleanRestoreOfAttachments | backend_nest/scripts/restore-meeting.js:91-107 | of attachments and files exactly the rows under a backed-up id are removed; what was attached since stays |
| MeetingMembership.CommitBringsBackExactlyUnlessBlocked | backend_nest/scripts/restore-meeting.js:67-89 | after any commit the rows of a table that name the meeting are exactly the backed-up ones if and only if the table was not blocked |
| MeetingRoundTrip.RestoringUnchanged | backend_nest/scripts/restore-meeting.js:48-213 | a restore that commits onto the unchanged database gives that very database back |
| MeetingRoundTrip.RoundTripExactlyWhen | backend_nest/scripts/restore-meeting.js:48-213 | with all tables there and writable, restoring onto the database backed up from commits and changes nothing if and only if no row that stays refers into the meeting and, where that link is enforced, the meeting is not linked to an online meeting of its own; a commit changes nothing in any case |
| MeetingRestore.RestoredTable | backend_nest/scripts/restore-meeting.js:54-203 | after a commit a table holds the rows never looked for that stayed, what a tolerated delete left, and the backed-up rows with their old values, under distinct ids |
| MeetingRestore.RestoreLeavesTheRest | backend_nest/scripts/restore-meeting.js:54-203 | other meetings' rows, other files and other tables are unchanged, but for participants that go with their unit |
| MeetingRestore.KeyedByMeetingRestored | backend_nest/scripts/restore-meeting.js:80-113 | where a table's reference to the meeting is enforced, a commit makes its part equal to the backup outright |
| MeetingRestore.RefusedExactlyWhenReferredTo | backend_nest/scripts/restore-meeting.js:80-89 | in a run that goes through, a tolerated delete is refused if and only if a row that is not itself to go, or the meeting by its link, refers into what it would take |
| MeetingRestore.RestoredExactlyWhenUnblocked | backend_nest/scripts/restore-meeting.js:80-89 | after a commit a table's part equals the backup if and only if the table was not blocked: no rows to go, or tied to the meeting, or writable with nothing that stays referring in |
| MeetingWitnesses.RowLeftBehind | backend_nest/scripts/restore-meeting.js:80-89 | a database on which a commit leaves a work item, or an audit row, that the backup does not hold |
| MeetingReady.RestoreIsCleanExactlyWhenReady | backend_nest/scripts/restore-meeting.js:54-203 | no statement is refused, so every intermediate state is closed and the transaction commits, if and only if tables are writable, no row that stays refers to one that goes, no backed-up id is taken, every parent is there or comes back, and, with the link to online meetings enforced, neither the row found nor a backed-up one has it |
| MeetingKeys.OrdersFitExactlyWhenUnlinked | backend_nest/scripts/restore-meeting.js:54-131 | both table orders are topological for the references between the meeting's tables, cascades included, if and only if the one from meetings to online meetings is not enforced |
| MeetingAgain.MeetingRestoreTwice | backend_nest/scripts/restore-meeting.js:48-213 | restoring twice ends in the database of restoring once, whatever was refused, unless only the link from meetings to online meetings is enforced and the row found has it |
| MeetingAgain.SecondRestoreChangesExactlyWhenFreed | backend_nest/scripts/restore-meeting.js:48-213 | of two restores that commit the second changes something if and only if the first freed online meetings that the replaced row's link alone had held |
| MeetingWitnesses.SecondRestoreRemoves | backend_nest/scripts/restore-meeting.js:48-213 | a database on which two restores commit and differ |
| MeetingRestore.LinkedOnlineMeetingAlwaysRollsBack | backend_nest/src/meeting/entities/meeting.entity.ts:91-96 | with the declared reference from meetings to online meetings enforced, a linked meeting is never restored |
| DeleteTheory.DeletePhase | backend_nest/scripts/restore-meeting.js:80-89 | the delete phase leaves exactly what the accepted deletes leave with their cascades; refused tolerated ones remove nothing |
| DeleteTheory.KeptExactly | backend_nest/src/meeting/entities/meeting-participant.entity.ts:242-245 | under cascading keys a row stays if and only if no delete aims at it and every row it refers to through such a key stays |
| DeleteTheory.KeptInTurn | backend_nest/scripts/restore-meeting.js:54-113 | deleting in two rounds, each with its cascades, leaves what deleting everything at once leaves |
| DeleteTheory.RefusedExactlyWhenStray | backend_nest/scripts/restore-meeting.js:80-89 | a delete that may write its table is refused if and only if a row that stays refers into what it takes |
| DeleteTheory.DeletesKeepClosed | backend_nest/scripts/restore-meeting.js:54-113 | deletes that go through keep every reference resolved |
| RestoreTheory.InsertedRows | backend_nest/scripts/restore-meeting.js:180-201 | inserting a recordset succeeds only onto free ids and adds exactly its image |
| RestoreTheory.UpsertedAt | backend_nest/scripts/restore-passport-request.js:143-171 | update-or-insert merges each backed-up row once and touches no other row |
| RestoreAgain.RestoreTwice | backend_nest/scripts/restore-passport-request.js:48-222 | such a program is idempotent if each delete must succeed, or aims at rows tied to one that must, or leaves rows and referring rows that later deletes spare |
| RestoreAgain.AnchoredLeavesNothing | backend_nest/scripts/restore-meeting.js:80-113 | a tolerated delete whose rows refer, through an enforced key, to rows that a later delete must remove leaves nothing in a run that goes through |
| RestoreReadiness.CleanExactlyWhenReady | backend_nest/scripts/restore-meeting.js:48-213 | a program goes through without a refused statement if and only if the target is ready and no key the table orders do not respect is needed out of order |
| RestoreReadiness.CleanResult | backend_nest/scripts/restore-meeting.js:48-213 | a clean restore leaves in every table exactly the kept rows and the backed-up ones |
| RestoreReadiness.LoadsKeepClosed | backend_nest/scripts/restore-meeting.js:133-203 | inserts that go through keep every reference resolved |
| PassportScripts.BackupPassportRequest | backend_nest/scripts/backup-passport-request.js:44-161 | the snapshot lists exactly the request's slice: by request, by voucher, files of relations, referenced passports; it fails exactly when the request is not there, or a needed table of files or passports |
| PassportMembership.BackupListsTheRequest | backend_nest/scripts/backup-passport-request.js:45-161 | by columns: a backup lists a row, once and as it is, if and only if it is the request's: request_id, document_id or object_id of the request or of one of its vouchers, a named file, or a passport named by the request, a delegation item or a voucher item |
| PassportScripts.RestorePassportRequest | backend_nest/scripts/restore-passport-request.js:48-222 | commits or rolls back to the start state; refused deletes are skipped |
| PassportMembership.CommitBringsBackExactlyUnlessStuck | backend_nest/scripts/restore-passport-request.js:54-95 | after any commit the rows of a table that name the request or a backed-up voucher are exactly the backed-up ones if and only if its delete was not stuck or found nothing |
| PassportMembership.NamedPassportsComeBack | backend_nest/scripts/restore-passport-request.js:142-174 | after a commit each passport the request named has its backed-up cells, and no other passport changes |
| PassportRoundTrip.RestoringUnchanged | backend_nest/scripts/restore-passport-request.js:48-222 | a restore that commits onto the unchanged database gives that very database back, even where deletes were refused |
| PassportBackup.PassportRestoreTwice | backend_nest/scripts/restore-passport-request.js:54-212 | restoring twice gives the database of restoring once, whatever deletes were refused |
| PassportBackup.PassportsUpserted | backend_nest/scripts/restore-passport-request.js:142-174 | every backed-up passport ends at its backed-up value, every other passport is untouched |
| PassportBackup.ReinsertedTable | backend_nest/scripts/restore-passport-request.js:74-95 | what a committed restore leaves in a deleted-and-reinserted table |
| PassportBackup.AcceptedExactlyUnlessStuck | backend_nest/scripts/restore-passport-request.js:74-105 | each delete is accepted if and only if its table may be written and no row that stays refers to a row to be removed, told from the database before the restore |
| PassportBackup.ReinsertedExactlyUnlessStuck | backend_nest/scripts/restore-passport-request.js:74-105 | after a commit the request's part is the backed-up part if and only if its delete was not stuck or had nothing to remove |
| PassportBackup.KeyedByRequestRestored | backend_nest/src/passport-requests/entities/passport-delegation-item.entity.ts:24-26 | where a table's reference to the request is enforced, a commit makes its part equal to the backup outright |
| PassportWitnesses.RowLeftBehind | backend_nest/scripts/restore-passport-request.js:74-82 | a database on which a commit leaves a work item that the backup does not hold |
| PassportBackup.ComputedColumnRollsBack | backend_nest/scripts/restore-passport-request.js:189-210 | unlike the meeting script, a backed-up computed column makes the restore roll back |
| Decimals.FixedWidthOrder | backend_nest/src/archives-management/archives-management.service.ts:64-69 | among digit strings of one length, string order is numeric order |
| Decimals.ParsePadded | backend_nest/src/archives-management/archives-management.service.ts:73-79 | parsing a padded printed number gives the number back |
| Decimals.ParsePrinted | backend_nest/src/archives-management/archives-management.service.ts:73 | parsing a printed integer, negative ones and leading space included, gives it back |
| Decimals.PrintIsInjective | backend_nest/src/book-documents/book-documents.service.ts:236 | different numbers print differently |
| ArchiveNumbers.IssuedIsNewUnlessExhausted | backend_nest/src/archives-management/archives-management.service.ts:60-80 | the issued number is one of the year's, and already in use if and only if the year is exhausted |
| ArchiveNumbers.IssuedFollowsTheLast | backend_nest/src/archives-management/archives-management.service.ts:60-80 | the first number of a year is HS-YYYY-0001; after that the suffix is one more than that of the greatest string, padded to four digits |
| ArchiveNumbers.UnreadableStartsAnew | backend_nest/src/archives-management/archives-management.service.ts:72-77 | a greatest number whose suffix is no number makes the next one 0001 |
| ArchiveNumbers.IssuedExceedsAll | backend_nest/src/archives-management/archives-management.service.ts:60-80 | with four-digit suffixes it exceeds every live number of its year |
| ArchiveNumbers.StepKeepsDistinctUnlessExhausted | backend_nest/src/archives-management/archives-management.service.ts:154-233 | a call keeps live numbers distinct unless it drafts in an exhausted year, which never does |
| ArchiveNumbers.RunKeepsNumbersDistinct | backend_nest/src/archives-management/archives-management.service.ts:154-790 | over every run of drafts, creations and deletions live numbers are distinct throughout if and only if no draft is created in an exhausted year |
| ArchiveNumbers.FourDigitRunsStayDistinct | backend_nest/src/archives-management/archives-management.service.ts:154-790 | so they are while suffixes have four digits |
| ArchiveNumbers.TenThousandIsIssuedTwice | backend_nest/src/archives-management/archives-management.service.ts:64-79 | the bound is sharp: with 9999 and 10000 in use, 10000 is issued again |
| ArchiveNumbers.ArchiveService.QueryLast | backend_nest/src/archives-management/archives-management.service.ts:64-69 | the greatest live number under the prefix in string order |
| ArchiveNumbers.ArchiveService.CreateDraft | backend_nest/src/archives-management/archives-management.service.ts:154-195 | a draft with the issued number |
| ArchiveNumbers.ArchiveService.DeleteDraft | backend_nest/src/archives-management/archives-management.service.ts:197-231 | removes exactly a live draft |
| ArchiveNumbers.ArchiveService.Create | backend_nest/src/archives-management/archives-management.service.ts:233-340 | turns the live draft of that number into an archive, or fails and changes nothing |
| ArchiveNumbers.ArchiveService.DeleteMany | backend_nest/src/archives-management/archives-management.service.ts:678-714 | soft-deletes exactly the live ones among the ids |
| ArchiveNumbers.ArchiveService.HardDeleteMany | backend_nest/src/archives-management/archives-management.service.ts:754-790 | removes exactly the ones that exist |
| ArchiveNumbers.StoredAfterStep | backend_nest/src/archives-management/archives-management.service.ts:154-790 | what each call does to each row: number, draft mark and live mark, and that no other row changes |
| ArchiveItems.RecordMatchesPayload | backend_nest/src/archive-records/archive-record.service.ts:298-365 | items afterwards are the old ones the payload names plus a fresh one for each other entry; fields and file set are those of the last entry |
| ArchiveItems.StoredAsSent | backend_nest/src/archive-records/archive-record.service.ts:311-365 | the last entry about an item is stored with its own record, sort order, group name and notes, linked to each file it lists and no other |
| ArchiveItems.UnnamedGo | backend_nest/src/archive-records/archive-record.service.ts:298-309 | an item stays if and only if an entry names it; one that goes takes its links along |
| ArchiveItems.NewItems | backend_nest/src/archive-records/archive-record.service.ts:311-329 | exactly each entry that names no item of the record puts in a new one |
| ArchiveItems.OtherRecordsUntouched | backend_nest/src/archive-records/archive-record.service.ts:298-365 | other records' items and their very link rows are unchanged |
| ArchiveItems.ReplayIsQuietExactly | backend_nest/src/archive-records/archive-record.service.ts:298-365 | replaying a payload whose ids all match deletes and inserts nothing if and only if stored identifiers are read as numbers and entries for one item agree on their files, or no entry has files |
| ArchiveItems.TextReplayRewrites | backend_nest/src/archive-records/entities/archive-record-item-flie.entity.ts:20-22 | with identifiers read as text, sending file 5 onto a stored "5" replaces its link row |
| ArchiveItems.UpdateSettles | backend_nest/src/archive-records/archive-record.service.ts:298-365 | such an update leaves a state the payload describes |
| ArchiveItems.SyncFilesSets | backend_nest/src/archive-records/archive-record.service.ts:337-364 | the item's file set becomes the payload's in either form of stored identifiers, other items' rows stay |
| ArchiveItems.SyncFilesNoChange | backend_nest/src/archive-records/archive-record.service.ts:337-364 | nothing is written if and only if the item has exactly the files asked for, and they are read as numbers or there are none; read as text, every file is inserted anew |
| ArchiveItems.ArchiveRecordService.UpdateItems | backend_nest/src/archive-records/archive-record.service.ts:298-365 | the loop computes the fold the lemmas are about, for either form of stored identifiers |
| ItemFiles.ReplacedFiles | backend_nest/src/archive-records/archive-record.service.ts:383-424 | the item is linked to exactly the non-zero files asked for, other rows stay |
| ItemFiles.LinkedAsAsked | backend_nest/src/archive-records/archive-record.service.ts:399-424 | a link row of the item and a file other than 0 is there afterwards if and only if the file was asked for |
| ItemFiles.ReplacingKeepsOneLinkEach | backend_nest/src/archive-records/archive-record.service.ts:399-424 | links stay single, because identifiers are normalised |
| ItemFiles.ReplacingAgain | backend_nest/src/archive-records/archive-record.service.ts:399-424 | asking for the same files in any order or repetition changes nothing |
| ItemFiles.SyncKeepsOneLinkEachExactlyWhen | backend_nest/src/archive-records/archive-record.service.ts:337-364 | an item's update keeps links single if and only if only files recognised as linked are repeated |
| ItemFiles.UpdateKeepsOneLinkEachExactlyWhen | backend_nest/src/archive-records/archive-record.service.ts:298-365 | a record update keeps links single if and only if no entry repeats a file not recognised as linked by then, unless a later entry for the item drops it again |
| ItemFiles.NewFileLinkedTwice | backend_nest/src/archive-records/archive-record.service.ts:351-364 | a new file named twice is linked twice, in either form |
| ItemFiles.ItemFileService.UpdateItemFiles | backend_nest/src/archive-records/archive-record.service.ts:383-424 | fails without the item, else replaces its files |
| DocumentIndexes.IndexMatchesList | backend_nest/src/archives-management/archives-management.service.ts:599-636 | live documents are those named, under old ids and the last name, plus one per other entry; no row disappears, others are untouched |
| DocumentIndexes.StoredAsListed | backend_nest/src/archives-management/archives-management.service.ts:599-636 | a document stays live if and only if an entry carries its identifier, under the name of the last such entry; its row stays in any case |
| DocumentIndexes.NewAsListed | backend_nest/src/archives-management/archives-management.service.ts:617-632 | each other entry puts a new live document of its name into the archive, in order |
| DocumentIndexes.ReplayChangesNothing | backend_nest/src/archives-management/archives-management.service.ts:599-636 | sending a fully matched list again changes nothing |
| DocumentIndexes.IndexService.UpdateDocumentIndexes | backend_nest/src/archives-management/archives-management.service.ts:599-636 | returns one document per entry, in order, under its name and identifier |
| BookNumbers.FirstFree | backend_nest/src/book-documents/book-documents.service.ts:222-246 | the search ends, at the least number not below the start that is neither reserved, used nor released |
| BookNumbers.TakenExactly | backend_nest/src/book-documents/book-documents.service.ts:226-244 | taken is a number held or used by a reservation, or an outgoing document's book number or release number, of that book |
| BookNumbers.AdjustBookDocumentCounts | backend_nest/src/book-documents/book-documents.service.ts:211-254 | every listed book with an identifier gets that number, the others are left |
| BookNumbers.SearchingAgain | backend_nest/src/book-documents/book-documents.service.ts:222-249 | searching again from the suggestion gives the suggestion |
| BookNumbers.AdjustingTwice | backend_nest/src/book-documents/book-documents.service.ts:211-254 | adjusting an adjusted list changes nothing |
| BookNumbers.SuggestionIsNear | backend_nest/src/book-documents/book-documents.service.ts:226-246 | the suggestion is ahead of the start by at most as many numbers as are taken |
| BookNumbers.ReservationService.CreateReservation | backend_nest/src/book-documents/document-number-reservation.service.ts:42-168 | refused exactly when the asked number is taken or below the count; else reserves it, or the first free one from the largest reserved or the count |
| BookNumbers.ReservingKeepsUnique | backend_nest/src/book-documents/entities/document-number-reservation.entity.ts:20-24 | a held or used number stays unique in its book |
| BookNumbers.ReservingMovesSuggestion | backend_nest/src/book-documents/document-number-reservation.service.ts:98-168 | afterwards the book's suggestion is larger, other books' are the same |
| BookNumbers.MaxReservedIsMax | backend_nest/src/book-documents/document-number-reservation.service.ts:100-104 | the largest number of the book's reservations |
| BookDefaults.CreateKeepsExactlyWhen | backend_nest/src/book-documents/book-documents.service.ts:264-316 | a creation is refused exactly for missing fields or a second certified book; it keeps one default a group if and only if so refused, not a default, covered by its reset, or alone in its group; and always one certified book a year |
| BookDefaults.UpdateKeepsDefaultsExactlyWhen | backend_nest/src/book-documents/book-documents.service.ts:438-514 | the same for updates, by guard, flag, year, trimmed type and group |
| BookDefaults.UpdateKeepsCertifiedExactlyWhen | backend_nest/src/book-documents/book-documents.service.ts:479-499 | an update keeps one certified book a year if and only if its guard refuses it, or the book is not certified, checked (flag sent, year not 0) or alone in its year |
| BookDefaults.RemovalsOnlyDelete | backend_nest/src/book-documents/book-documents.service.ts:516-606 | removals change only the status, and of no book in use |
| BookDefaults.CarefulRunKeeps | backend_nest/src/book-documents/book-documents.service.ts:264-606 | over every run of careful requests both rules hold in every state |
| Prelude.TrimTakesWhiteEnds | backend_nest/src/book-documents/book-documents.service.ts:811 | trimming takes white space away at both ends, all of it, and nothing else |
| BookDefaults.UntrimmedTypeGivesTwoDefaults | backend_nest/src/book-documents/book-documents.service.ts:806-811 | two creations with an untrimmed type leave two defaults |
| BookDefaults.UnflaggedMoveGivesTwoCertified | backend_nest/src/book-documents/book-documents.service.ts:479-499 | moving a certified book without the flag gives its year two |
| BookDefaults.RefusedCreationClearsDefault | backend_nest/src/book-documents/book-documents.service.ts:289-307 | a creation refused for its certified flag has already cleared the group's default |
| BookDefaults.BookService.CreateBook | backend_nest/src/book-documents/book-documents.service.ts:264-317 | the new table and error, refused calls included |
| BookDefaults.StoredAfterCreation | backend_nest/src/book-documents/book-documents.service.ts:264-317 | when a creation is refused and with which error, the fields it stores, and which books it clears of the default flag |
| BookDefaults.CreatedDefaultIsTheOnlyOne | backend_nest/src/book-documents/book-documents.service.ts:289-292 | a book created as default, of a year and a type the reset covers, is the one default of its group |
| BookDefaults.BookService.UpdateBook | backend_nest/src/book-documents/book-documents.service.ts:438-514 | the new table and error, refused calls included |
| BookDefaults.StoredAfterUpdate | backend_nest/src/book-documents/book-documents.service.ts:438-514 | name and year become the sent ones, type and flags where sent, the status stays; when it is refused, and which books are cleared |
| BookDefaults.UpdatedDefaultIsTheOnlyOne | backend_nest/src/book-documents/book-documents.service.ts:468-477 | a book updated as default is the one default of its group if the reset covers it |
| BookDefaults.BookService.RemoveBook | backend_nest/src/book-documents/book-documents.service.ts:516-525 | the new table and error |
| BookDefaults.BookService.RemoveBooks | backend_nest/src/book-documents/book-documents.service.ts:527-606 | the new table, error and number removed |
| BookDefaults.StoredAfterRemoval | backend_nest/src/book-documents/book-documents.service.ts:516-525 | one book is marked deleted, or which error |
| BookDefaults.StoredAfterRemovals | backend_nest/src/book-documents/book-documents.service.ts:527-606 | those not yet deleted are marked, unless a document uses one; which error otherwise |
| Calendar.MakeDayOfFields | backend_nest/src/announcements/birthday.service.ts:55 | a day is rebuilt from its own year, month and date |
| Calendar.FieldsOfMakeDay | backend_nest/src/announcements/birthday.service.ts:55-56 | a day built from fields in range has those fields |
| Calendar.SetDateMoves | backend_nest/src/announcements/birthday.service.ts:63-65 | setting a date moves by the difference, across months and years |
| Calendar.SameDateApart | backend_nest/src/announcements/birthday.service.ts:69-80 | days with the same month and date are a year or more apart |
| Calendar.MonthLengths | backend_nest/src/announcements/birthday.service.ts:55-56 | the lengths of the twelve months of each year |
| Calendar.StartOfTheCount | backend_nest/src/announcements/birthday.service.ts:61-62 | day 0 is Thursday, 1 January 1970, and week days follow one another |
| Birthdays.GetRange | backend_nest/src/announcements/birthday.service.ts:50-67 | computes the week or month range |
| Birthdays.WeekIsMondayToSunday | backend_nest/src/announcements/birthday.service.ts:60-66 | it is the week range if and only if it runs from a Monday to a Sunday, seven days, and contains the date |
| Birthdays.MonthContainsBaseExactlyWhen | backend_nest/src/announcements/birthday.service.ts:54-58 | it holds exactly the days of the view's month, and the date if and only if its year is not 0 to 99 |
| Birthdays.EnumerateMonthDayPairs | backend_nest/src/announcements/birthday.service.ts:69-80 | one pair a day, in date order |
| Birthdays.PairsAreDistinct | backend_nest/src/announcements/birthday.service.ts:69-80 | the pairs of a view are pairwise distinct |
| Birthdays.BirthdayInRangeDate | backend_nest/src/announcements/birthday.service.ts:88-99 | the first day of the range with the birthday's month and date, if any |
| Birthdays.MatchesExactlyWhenFound | backend_nest/src/announcements/birthday.service.ts:121-131 | the pair filter passes a birthday if and only if the range search finds a day |
| Birthdays.FallsOnOneDay | backend_nest/src/announcements/birthday.service.ts:88-99 | that day is unique in a view |
| Birthdays.LeapDayBirthday | backend_nest/src/announcements/birthday.service.ts:121-131 | 29 February is in a month view if and only if it shows February of a leap year |
| Birthdays.List | backend_nest/src/announcements/birthday.service.ts:159-186 | every filtered row is listed with its day, stably sorted by it |
| Birthdays.ListedExactlyWhen | backend_nest/src/announcements/birthday.service.ts:108-186 | a user is listed if and only if active with a birthday in the range: the null filter drops nobody |
| StableSort.SortProperties | backend_nest/src/announcements/birthday.service.ts:182-186 | a sorted permutation in which equal keys keep their order |
| StableSort.StableSortIsUnique | backend_nest/src/block/block.service.ts:361-388 | these properties determine the result |
| Recipients.ResolvedExactly | backend_nest/src/announcements/announcements.service.ts:579-620 | the resolved list names each recipient once: all users, or those reached directly, by department or by role |
| Recipients.ChunkArray | backend_nest/src/announcements/announcements.service.ts:570-577 | the loop builds the chunks |
| Recipients.ChunksCover | backend_nest/src/announcements/announcements.service.ts:570-577 | chunks are non-empty, at most the size, full but for the last, and concatenate to the items |
| Recipients.InsertionAdds | backend_nest/src/announcements/announcements.service.ts:642-651 | inserting in chunks of 300 adds all missing rows, or the full chunks before the first identifier that is no user |
| Recipients.SyncCoversExactlyWhen | backend_nest/src/announcements/announcements.service.ts:622-652 | existing rows stay, rows stay unique, and every recipient has one if and only if each missing one was a user |
| Recipients.SyncTwice | backend_nest/src/announcements/announcements.service.ts:622-652 | synchronising again adds nothing |
| Announcements.RunKeepsConsistent | backend_nest/src/announcements/announcements.service.ts:81-568 | in every reachable state scheduled ones have a schedule and no sent time, sent ones the converse, rows are unique, and confirmed implies read |
| Announcements.StepKeepsConsistent | backend_nest/src/announcements/announcements.service.ts:81-568 | every call, failing ones included, keeps that |
| Announcements.ReadTimesStay | backend_nest/src/announcements/announcements.service.ts:358-361 | over any run without deleting the announcement a read time is written once and a confirmation stays |
| Announcements.SentReachesEveryRecipient | backend_nest/src/announcements/announcements.service.ts:120-124 | after a successful call a sent announcement has exactly one row for each recipient |
| Announcements.SyncFailsExactlyWhen | backend_nest/src/announcements/announcements.service.ts:622-652 | it fails if and only if, with no target for everyone, one names an unknown identifier without a row |
| Announcements.SyncIsIdempotent | backend_nest/src/announcements/announcements.service.ts:622-652 | synchronising twice is synchronising once |
| Announcements.ScheduledUntilReleased | backend_nest/src/announcements/announcements.service.ts:81-384 | over every run, whatever the clock, an announcement stays scheduled if and only if it is neither deleted nor updated with an empty schedule field, and until then reaches nobody new |
| Announcements.StatisticsAreOrdered | backend_nest/src/announcements/announcements.service.ts:386-410 | confirmed <= read <= total |
| Announcements.MarkingAllAsRead | backend_nest/src/announcements/announcements.service.ts:467-492 | nothing unread is left to the user and nobody else's counts change |
| Announcements.AnnouncementsService.CreateAnnouncement | backend_nest/src/announcements/announcements.service.ts:81-127 | the new store, with a failing synchronisation after the announcement is saved |
| Announcements.StoredAfterCreation | backend_nest/src/announcements/announcements.service.ts:81-127 | status, times and targets of the new announcement, and that rows are only appended, unread, for its recipients |
| Announcements.AnnouncementsService.UpdateAnnouncement | backend_nest/src/announcements/announcements.service.ts:168-267 | the new store, by schedule field and targets |
| Announcements.StoredAfterUpdate | backend_nest/src/announcements/announcements.service.ts:168-267 | status, schedule, sent time and targets afterwards, by the schedule field, and which rows are appended |
| Announcements.AnnouncementsService.FindOneAnnouncement | backend_nest/src/announcements/announcements.service.ts:349-377 | opening sets the read time once and reports it |
| Announcements.StoredAfterOpening | backend_nest/src/announcements/announcements.service.ts:349-377 | who may open, and the read time of the one row that may change |
| Announcements.AnnouncementsService.ConfirmAnnouncement | backend_nest/src/announcements/announcements.service.ts:548-568 | sets the read time once and the confirmation time anew |
| Announcements.StoredAfterConfirming | backend_nest/src/announcements/announcements.service.ts:548-568 | who may confirm; the confirmation is the present, the read time too if there was none, and no other row changes |
| Announcements.AnnouncementsService.DeleteAnnouncement | backend_nest/src/announcements/announcements.service.ts:379-384 | removes the announcement and its rows |
| Announcements.StoredAfterDeletion | backend_nest/src/announcements/announcements.service.ts:379-384 | exactly the announcement and its rows go |
| Announcements.NotFoundExactly | backend_nest/src/announcements/announcements.service.ts:168-384 | exactly updates, deletions, openings and confirmations of an announcement that is not there report it, and change nothing |
| Announcements.AnnouncementsService.MarkAllRead | backend_nest/src/announcements/announcements.service.ts:467-492 | returns the old unread count and makes it zero |
| Announcements.StoredAfterMarkingAll | backend_nest/src/announcements/announcements.service.ts:467-492 | the present becomes the read time of exactly the user's unread rows of sent announcements |
| Announcements.AnnouncementsService.GetStatistics | backend_nest/src/announcements/announcements.service.ts:386-410 | read + unread = total and confirmed <= read |
| Announcements.StatisticsCountRows | backend_nest/src/announcements/announcements.service.ts:386-410 | the three counts are the numbers of its rows, those with a read time and those with a confirmation |
| Announcements.AnnouncementsService.GetInboxStatistics | backend_nest/src/announcements/announcements.service.ts:494-524 | the same for a user's inbox |
| Announcements.InboxStatisticsCountRows | backend_nest/src/announcements/announcements.service.ts:494-524 | the same for the user's rows of sent announcements |
| Announcements.AnnouncementsService.SyncReadStatusesForAnnouncement | backend_nest/src/announcements/announcements.service.ts:622-652 | the loop over chunks computes the synchronised rows |
| Delegations.UpdateKeepsAuthorsExactlyWhen | backend_nest/src/authority-process/authority-process.service.ts:94-188 | an update is refused exactly by its guards; it keeps an author's live delegations apart if and only if so refused, a forced end, or the edited row meets no other of its author |
| Delegations.UpdateKeepsDelegates | backend_nest/src/authority-process/authority-process.service.ts:94-188 | an update always keeps a delegate's live delegations apart |
| Delegations.CreateKeeps | backend_nest/src/authority-process/authority-process.service.ts:40-75 | a creation keeps both rules |
| Delegations.RunKeepsDelegates | backend_nest/src/authority-process/authority-process.service.ts:40-188 | in every reachable state no two live delegations to one delegate overlap, whatever is forced to end and when |
| Delegations.CarefulRunKeepsAuthors | backend_nest/src/authority-process/authority-process.service.ts:40-188 | nor two of one author, if only authors edit into occupied time |
| Delegations.OthersEditOverlaps | backend_nest/src/authority-process/authority-process.service.ts:154-162 | someone else's edit can bring two together |
| Delegations.AtMostOneInForce | backend_nest/src/database/sqlRepo.mssql.ts:22779-22864 | at any instant each author has at most one delegate and each delegate one author |
| Delegations.DeletedStaysInForce | backend_nest/src/database/sqlRepo.mssql.ts:23062-23067 | a deleted delegation stays in force, never expires and keeps blocking |
| Delegations.ExpiryEndsOnlyThePast | backend_nest/src/database/sqlRepo.mssql.ts:23055-23060 | expiry ends exactly the active delegations past their end, and none still in force |
| Delegations.DelegationService.CreateDelegation | backend_nest/src/authority-process/authority-process.service.ts:40-75 | the new table and error |
| Delegations.StoredAfterCreation | backend_nest/src/authority-process/authority-process.service.ts:40-75 | accepted if and only if no running delegation of the user or to the delegate shares an instant; stores just what was sent, running and active |
| Delegations.DelegationService.UpdateDelegation | backend_nest/src/authority-process/authority-process.service.ts:94-188 | the new table and error |
| Delegations.UpdateAcceptedExactlyWhen | backend_nest/src/authority-process/authority-process.service.ts:94-176 | the condition, on the fields sent and the stored row, under which an update is accepted |
| Delegations.StoredAfterUpdate | backend_nest/src/authority-process/authority-process.service.ts:119-188 | an edit stores each field sent, the ends among them, and keeps the others; a forced end stores the present; no other row changes |
| Delegations.DelegationService.UpdateExpired | backend_nest/src/database/sqlRepo.mssql.ts:23055-23060 | the new table and number expired |
| Delegations.DelegationService.DeleteDelegations | backend_nest/src/authority-process/authority-process.service.ts:86-92 | the new table and number marked |
| Delegations.StoredAfterSweeps | backend_nest/src/database/sqlRepo.mssql.ts:23055-23067 | expiry and deletion change one column each, of exactly the rows meant |
| Blocks.AddInserts | backend_nest/src/block/block.service.ts:159-196 | adding fails exactly on a visible key, else inserts into the visible map, keeps keys distinct and sorts |
| Blocks.DeleteRemoves | backend_nest/src/block/block.service.ts:198-224 | deleting removes exactly the key from the map |
| Blocks.UpdateModifies | backend_nest/src/block/block.service.ts:123-157 | updating modifies the map, and keeps keys distinct if and only if no rename meets another stored key |
| Blocks.ReorderReorders | backend_nest/src/block/block.service.ts:361-388 | reordering changes only orders and leaves a sorted permutation |
| Blocks.DeleteThenAddReusesSlot | backend_nest/src/block/block.service.ts:159-224 | deleting then adding a key reuses its slot |
| Blocks.SaveKeepsKeys | backend_nest/src/block/block.service.ts:71-120 | saving keeps keys in place |
| Blocks.BlocksService.AddBlock | backend_nest/src/block/block.service.ts:159-196 | the stored array after adding |
| Blocks.AnswerHolds | backend_nest/src/block/block.service.ts:192 | the answer holds the stored blocks whose status is not 0, each place once, in stored order |
| Blocks.AnswerIsTheMap | backend_nest/src/block/block.service.ts:192 | with distinct keys the answer is the visible map, each block once |
| Blocks.StoredAfterAdding | backend_nest/src/block/block.service.ts:159-196 | refused if and only if a block of the key with another status than 0 is there; else it comes with status 1, in order, and all others stay |
| Blocks.BlocksService.DeleteBlock | backend_nest/src/block/block.service.ts:198-224 | the stored array after deleting |
| Blocks.StoredAfterDeleting | backend_nest/src/block/block.service.ts:198-224 | refused without such a block; else its status becomes 0 in place and nothing else changes |
| Blocks.BlocksService.UpdateBlock | backend_nest/src/block/block.service.ts:123-157 | the stored array after updating |
| Blocks.StoredAfterUpdating | backend_nest/src/block/block.service.ts:123-157 | the fields sent are stored in place, every other field and block stays |
| Blocks.BlocksService.ReorderBlocks | backend_nest/src/block/block.service.ts:361-388 | the stored array after reordering |
| Blocks.StoredAfterReordering | backend_nest/src/block/block.service.ts:361-388 | the last position sent for a key decides its block's order; the array is in order |
| Blocks.BlocksService.SaveBlocks | backend_nest/src/block/block.service.ts:71-120 | the stored array after saving |
| Blocks.StoredAfterSaving | backend_nest/src/block/block.service.ts:71-120 | refused if and only if a block lacks key or name; else stored as sent, with status 1 where none is sent |
| Failover.BootPrecheck | backend_nest/src/main.ts:370-402 | one pass picks the address of the two-pass rule |
| Failover.TwoPassPicksBest | backend_nest/src/app.module.ts:131-154 | picks something if and only if a port is open, and something writable whenever there is one |
| Failover.TwoPassPicksFirst | backend_nest/src/app.module.ts:131-154 | picks the first writable address with an open port, or without one the first open one |
| Failover.TickFollowsTheRule | backend_nest/src/app.module.ts:105-161 | a tick leaves a writable address alone, else goes where the rule points among the other addresses |
| Failover.FailoverMonitor.RunTick | backend_nest/src/app.module.ts:105-182 | the address after a tick |
| Failover.TickKeepsExactlyWhen | backend_nest/src/app.module.ts:116-161 | a tick keeps the address if and only if it is writable or no other port is open |
| Failover.TickReachesWritable | backend_nest/src/app.module.ts:131-160 | with a writable address resolved one tick reaches one |
| Failover.MonitorConverges | backend_nest/src/app.module.ts:105-183 | with stable health the address stays writable and is not left again |
| Failover.MonitorFlaps | backend_nest/src/app.module.ts:144-160 | without a writable address it is, after every number of ticks, at the first or the second open one by parity |
| Failover.MonitorSettlesExactlyWhen | backend_nest/src/app.module.ts:105-161 | it settles, after one tick at the latest, if and only if the address in use or a resolved one is writable or at most one is open |
| Failover.WaitForDb | backend_nest/src/app.module.ts:539-553 | succeeds if and only if one of the first attempts does, after exactly the first such |
| FormatErrors.FormatErrors | backend_nest/src/formatError.ts:3-36 | the recursive loop computes the flattened list |
| FormatErrors.OneEntryPerConstrainedNode | backend_nest/src/formatError.ts:6-33 | one entry per node with constraints, in preorder, with its first message and printed path |
| FormatErrors.PathJoins | backend_nest/src/formatError.ts:8-18 | names are joined by dots, a numeric one in brackets, an empty path taking the name as it is |
| FormatErrors.PathIsInjective | backend_nest/src/formatError.ts:8-18 | clean names are recovered from the printed path |
| FormatErrors.FieldsAreDistinct | backend_nest/src/formatError.ts:3-36 | with distinct clean sibling names the printed paths are pairwise distinct |
| FormatErrors.DotInNameCollides | backend_nest/src/formatError.ts:14 | a dot in a name makes two paths equal |
| FormatErrors.EmptyRootCollides | backend_nest/src/formatError.ts:9-18 | an empty root name makes two paths equal |
| AuthConfigs.StepKeepsInvariants | backend_nest/src/auth-config/auth-config.service.ts:46-257 | every call, failing ones included, keeps at most one active configuration and unique types |
| AuthConfigs.RunKeepsInvariants | backend_nest/src/auth-config/auth-config.service.ts:46-257 | so in every reachable state |
| AuthConfigs.LosesActiveExactlyWhen | backend_nest/src/auth-config/auth-config.service.ts:46-257 | the calls after which none is active, by what can be checked before |
| AuthConfigs.DeletingTheActiveOne | backend_nest/src/auth-config/auth-config.service.ts:155-190 | deleting the active one leaves exactly one active, another live one, whenever there is one |
| AuthConfigs.BulkDeleteKeepsActive | backend_nest/src/auth-config/auth-config.service.ts:193-257 | a bulk delete is refused if and only if it names the active one, and deletes exactly the named others |
| AuthConfigs.CreateUnderDeletedType | backend_nest/src/auth-config/auth-config.service.ts:56-72 | creating under a deleted row's type fails and leaves none active |
| AuthConfigs.AuthConfigService.Create | backend_nest/src/auth-config/auth-config.service.ts:46-81 | the new table and error, refused calls included |
| AuthConfigs.CreationUpdatesTheLiveOne | backend_nest/src/auth-config/auth-config.service.ts:46-60 | a live configuration of the type is updated instead, if and only if there is one |
| AuthConfigs.StoredAfterCreation | backend_nest/src/auth-config/auth-config.service.ts:56-81 | the fields a creation stores, when the type is refused, and which rows are turned off |
| AuthConfigs.AuthConfigService.Update | backend_nest/src/auth-config/auth-config.service.ts:113-152 | the new table and error, refused calls included |
| AuthConfigs.StoredAfterUpdate | backend_nest/src/auth-config/auth-config.service.ts:113-152 | the fields sent are stored and the others kept, when it is refused, and which rows are turned off, then too |
| AuthConfigs.AuthConfigService.SoftDelete | backend_nest/src/auth-config/auth-config.service.ts:155-190 | the new table and error |
| AuthConfigs.StoredAfterDeletion | backend_nest/src/auth-config/auth-config.service.ts:155-190 | the row is hidden, and another live one turned on if it was in use and there is one |
| AuthConfigs.AuthConfigService.BulkSoftDelete | backend_nest/src/auth-config/auth-config.service.ts:193-257 | the new table, number deleted and missing identifiers in order |
| AuthConfigs.StoredAfterBulkDeletion | backend_nest/src/auth-config/auth-config.service.ts:193-257 | the named rows are hidden, or the request is refused for the one in use; no other row changes |
| AuthConfigs.MissingInOrder | backend_nest/src/auth-config/auth-config.service.ts:193-257 | what is reported as missing are the non-blank identifiers without a live row, each time they are sent, in order |
| Roles.MapRolesDynamicToRolesByProcess | backend_nest/src/auth-keycloak/auth-keycloak.service.ts:816-843 | one item a key, in first-appearance order, with that key's roles in order |
| Roles.GroupedInOrder | backend_nest/src/auth-keycloak/auth-keycloak.service.ts:816-843 | an item has a role for each dynamic role of its key, in order, with its code, its name and the group |
| Roles.MergeRolesByProcess | backend_nest/src/auth-keycloak/auth-keycloak.service.ts:786-814 | one item a key, the last stored roles before the incoming ones in order |
| Roles.MergedByKey | backend_nest/src/auth-keycloak/auth-keycloak.service.ts:786-814 | with distinct stored keys each stored item keeps its place, name and roles, followed by the incoming ones |
| Roles.MergedFieldByField | backend_nest/src/auth-keycloak/auth-keycloak.service.ts:786-814 | with distinct keys on either side: key, name and roles of each merged item, by the stored and the incoming fields |
| Roles.GroupingKeepsCount | backend_nest/src/auth-keycloak/auth-keycloak.service.ts:816-843 | as many roles out as in |
| Roles.MergingKeepsCountExactlyWhen | backend_nest/src/auth-keycloak/auth-keycloak.service.ts:786-814 | the total is the sum of both totals if and only if no overwritten stored item has roles |
| Uniques.FirstAppearancesInOrder | backend_nest/src/auth-keycloak/auth-keycloak.service.ts:824-842 | each value once, in order of first appearance |

## Left out

- MeetingReady.RestoreIsCleanExactlyWhenReady: assumes that between the meeting's tables the server knows at most the references the scripts and entities name (each may be enforced or not), and that deletes there cascade at most along the three that the entities declare.
- MeetingScripts.BackupOfRestored: is about restores without a refused statement; what a refused tolerated delete leaves is in `RestoredExactlyWhenUnblocked`.
- PassportBackup.PassportRestoreTwice: assumes that tables the script deletes from are referred to only by tables it empties earlier or never touches, without cascades, as the entities declare them.
- Recipients.InsertionAdds: a chunk is refused only for an identifier that is no user; the driver's limit on parameters of the preceding look-up is not modelled.
- The reset of default books never fails here, while the source swallows its errors and goes on.
- Delegations: two entities map their table, one with the stage as text, one as a number; the update's guard compares it with the text '1' and would refuse every update under the second, so the model follows the first.
- ON DELETE SET NULL, and the unique constraints behind one-to-one references: foreign keys here refuse or cascade.
- JSON fidelity of backed-up values, identity insert, schema changes between backup and restore, and NULL or empty identifiers inside a backup.
- The other backup and restore pairs (document, incoming document, vehicle, destroy record, record exploitation): the same program with fewer tables.
- The header part of archive and archive record updates, `updateRecordState`, expiry dates, and the linked record document: field copies and one-branch facts.
- Menu items and deletion of whole pages of blocks, listing of pages: plain map operations.
- The users' `name_authorized` column, attachments, pins, comments, priorities and titles: written through unchanged.
- The start-up backfill of read rows: a loop over the modelled synchronisation.
- `mergeWithEnv`, and null flags in requests, which the columns refuse.
- Rounding of stored date-times, time zones and daylight saving: dates are local day numbers or instants.
- Collations are a parameter for book types and release numbers; elsewhere texts and identifiers are compared exactly.
- Pagination, search, exports, statistics over lists, permission checks (a parameter where they decide the outcome), mail, logging, sockets, DNS, pools and HTTP.
- Concurrent calls: the code takes no locks, so all claims are about sequential steps, with each transaction as one atomic step.
