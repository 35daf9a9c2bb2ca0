/**
 Nested synchronisation of an archive record's items and of the files linked to each item
 (backend_nest/src/archive-records/archive-record.service.ts).
 */
module ArchiveItems {
  import opened Prelude

  type Id = string

  datatype Item = Item(record: Id, sortOrder: int, groupName: string, notes: Option<string>)

  /** One row of the link table between items and files. */
  datatype Link = Link(item: Id, file: int)

  /** The item and link tables. Link rows are numbered in the order in which they were inserted. */
  datatype Store = Store(items: map<Id, Item>, links: map<nat, Link>, nextLink: nat)

  /** One element of the payload's item list; a missing file list has become empty. */
  datatype Entry = Entry(id: Option<Id>, sortOrder: int, groupName: string, notes: Option<string>, files: seq<int>)

  predicate Valid(store: Store) {
    forall l | l in store.links :: l < store.nextLink
  }

  function FilesOf(store: Store, item: Id): set<int> {
    set l | l in store.links && store.links[l].item == item :: store.links[l].file
  }

  function Files(files: seq<int>): set<int> {
    set f | f in files
  }

  /** How a stored file identifier, a big integer, is read back: the driver gives its text unless told to give numbers. */
  datatype Form = AsText | AsNumber

  /** The stored identifiers that equal some number: the text of a number equals none. */
  function Met(form: Form, have: set<int>): set<int> {
    if form.AsNumber? then have else {}
  }

  function ItemFrom(record: Id, entry: Entry): Item {
    Item(record, entry.sortOrder, entry.groupName, entry.notes)
  }

  // ---------- one item's files ----------

  /** The payload's files that are not linked yet, repetitions included. */
  function Missing(files: seq<int>, have: set<int>): (missing: seq<int>)
    ensures forall f :: f in missing <==> f in files && f !in have
  {
    if files == [] then []
    else
      var n := |files| - 1;
      var before := Missing(files[..n], have);
      if files[n] in have then before else before + [files[n]]
  }

  lemma {:induction false} NothingMissing(files: seq<int>, have: set<int>)
    requires forall i | 0 <= i < |files| :: files[i] in have
    ensures Missing(files, have) == []
  {
    if files != [] {
      NothingMissing(files[..|files| - 1], have);
    }
  }

  function AddLinks(store: Store, item: Id, files: seq<int>): Store {
    if files == [] then store
    else
      var n := |files| - 1;
      var mid := AddLinks(store, item, files[..n]);
      mid.(links := mid.links[mid.nextLink := Link(item, files[n])], nextLink := mid.nextLink + 1)
  }

  lemma {:induction false} AddedRows(store: Store, item: Id, files: seq<int>)
    requires Valid(store)
    ensures var after := AddLinks(store, item, files);
            && Valid(after) && after.items == store.items && after.nextLink == store.nextLink + |files|
            && (forall l :: l in after.links <==> l in store.links || store.nextLink <= l < store.nextLink + |files|)
            && (forall l | l in store.links :: after.links[l] == store.links[l])
            && (forall l | l in after.links && l >= store.nextLink ::
                  after.links[l] == Link(item, files[l - store.nextLink]))
  {
    if files != [] {
      AddedRows(store, item, files[..|files| - 1]);
    }
  }

  function DropLinks(store: Store, item: Id, gone: set<int>): Store {
    store.(links := map l | l in store.links && !(store.links[l].item == item && store.links[l].file in gone) :: store.links[l])
  }

  /** The stored identifiers the payload is not found to contain. */
  function Gone(form: Form, files: seq<int>, have: set<int>): set<int> {
    have - Files(files) * Met(form, have)
  }

  /** Deletes the links found to be lacking in the payload and inserts those found to be new. */
  function SyncFiles(form: Form, store: Store, item: Id, files: seq<int>): Store {
    var have := FilesOf(store, item);
    AddLinks(DropLinks(store, item, Gone(form, files, have)), item, Missing(files, Met(form, have)))
  }

  lemma SyncFilesSets(form: Form, store: Store, item: Id, files: seq<int>)
    requires Valid(store)
    ensures var after := SyncFiles(form, store, item, files);
            && Valid(after) && after.items == store.items && after.nextLink >= store.nextLink
            && FilesOf(after, item) == Files(files)
            && (forall l | l in store.links && store.links[l].item != item :: l in after.links && after.links[l] == store.links[l])
            && (forall l | l in after.links && after.links[l].item != item :: l in store.links && store.links[l] == after.links[l])
  {
    var have := FilesOf(store, item);
    var missing := Missing(files, Met(form, have));
    var after := SyncFiles(form, store, item, files);
    AddedRows(DropLinks(store, item, Gone(form, files, have)), item, missing);
    forall f | f in files ensures f in FilesOf(after, item) {
      SentIsLinked(form, store, item, files, f);
    }
    forall f | f in FilesOf(after, item) ensures f in files {
      var l :| l in after.links && after.links[l].item == item && after.links[l].file == f;
      if l >= store.nextLink {
        assert missing[l - store.nextLink] == f;
      }
    }
  }

  lemma SentIsLinked(form: Form, store: Store, item: Id, files: seq<int>, f: int)
    requires Valid(store) && f in files
    ensures f in FilesOf(SyncFiles(form, store, item, files), item)
  {
    var have := FilesOf(store, item);
    var missing := Missing(files, Met(form, have));
    var dropped, after := DropLinks(store, item, Gone(form, files, have)), SyncFiles(form, store, item, files);
    AddedRows(dropped, item, missing);
    if f in Met(form, have) {
      var l :| l in store.links && store.links[l].item == item && store.links[l].file == f;
      assert l in dropped.links && after.links[l] == store.links[l];
    } else {
      assert f in missing;
      var i :| 0 <= i < |missing| && missing[i] == f;
      assert after.links[store.nextLink + i] == Link(item, f);
    }
  }

  lemma SyncFilesElsewhere(form: Form, store: Store, item: Id, files: seq<int>, other: Id)
    requires Valid(store) && other != item
    ensures FilesOf(SyncFiles(form, store, item, files), other) == FilesOf(store, other)
  {
    var after := SyncFiles(form, store, item, files);
    SyncFilesSets(form, store, item, files);
    forall f | f in FilesOf(store, other) ensures f in FilesOf(after, other) {
      var l :| l in store.links && store.links[l].item == other && store.links[l].file == f;
      assert after.links[l] == store.links[l];
    }
    forall f | f in FilesOf(after, other) ensures f in FilesOf(store, other) {
      var l :| l in after.links && after.links[l].item == other && after.links[l].file == f;
      assert store.links[l] == after.links[l];
    }
  }

  /**
   Syncing writes nothing exactly when the item has the files asked for and they are recognised, which
   text never is: then only the empty list writes nothing.
   */
  lemma SyncFilesNoChange(form: Form, store: Store, item: Id, files: seq<int>)
    requires Valid(store)
    ensures SyncFiles(form, store, item, files) == store <==>
              FilesOf(store, item) == Files(files) && (form.AsNumber? || files == [])
    ensures SyncFiles(form, store, item, files).nextLink == store.nextLink ==>
              forall l | l in SyncFiles(form, store, item, files).links ::
                l in store.links && store.links[l] == SyncFiles(form, store, item, files).links[l]
    ensures form.AsText? ==> SyncFiles(form, store, item, files).nextLink == store.nextLink + |files|
  {
    SyncFilesSets(form, store, item, files);
    var have := FilesOf(store, item);
    var dropped := DropLinks(store, item, Gone(form, files, have));
    AddedRows(dropped, item, Missing(files, Met(form, have)));
    if form.AsText? {
      AllMissing(files);
    }
    if have == Files(files) && (form.AsNumber? || files == []) {
      assert forall i | 0 <= i < |files| :: files[i] in Files(files);
      NothingMissing(files, Met(form, have));
      assert dropped.links == store.links;
    }
  }

  lemma {:induction false} AllMissing(files: seq<int>)
    ensures Missing(files, {}) == files
  {
    if files != [] {
      AllMissing(files[..|files| - 1]);
    }
  }

  // ---------- the whole payload ----------

  function RecordItems(store: Store, record: Id): set<Id> {
    set id | id in store.items && store.items[id].record == record
  }

  function PayloadIds(payload: seq<Entry>): set<Id> {
    set entry | entry in payload && entry.id.Some? :: entry.id.value
  }

  /** Deletes items; their links go with them. */
  function DropItems(store: Store, gone: set<Id>): Store {
    store.(items := store.items - gone,
           links := map l | l in store.links && store.links[l].item !in gone :: store.links[l])
  }

  /** The entry names an item of this record. */
  predicate Matched(store: Store, record: Id, entry: Entry) {
    entry.id.Some? && entry.id.value in store.items && store.items[entry.id.value].record == record
  }

  /** The item an entry writes: the one it names, or the one created for it. */
  function Target(store: Store, record: Id, entry: Entry, newId: Id): Id {
    if Matched(store, record, entry) then entry.id.value else newId
  }

  function ApplyEntry(form: Form, store: Store, record: Id, entry: Entry, newId: Id): Store {
    var item := Target(store, record, entry, newId);
    SyncFiles(form, store.(items := store.items[item := ItemFrom(record, entry)]), item, entry.files)
  }

  function ApplyEntries(form: Form, store: Store, record: Id, payload: seq<Entry>, newIds: seq<Id>): Store
    requires |newIds| == |payload|
  {
    if payload == [] then store
    else
      var n := |payload| - 1;
      ApplyEntry(form, ApplyEntries(form, store, record, payload[..n], newIds[..n]), record, payload[n], newIds[n])
  }

  /** Items of the record the payload does not name go first; then each entry is applied in turn. */
  function ApplyPayload(form: Form, store: Store, record: Id, payload: seq<Entry>, newIds: seq<Id>): Store
    requires |newIds| == |payload|
  {
    ApplyEntries(form, DropItems(store, RecordItems(store, record) - PayloadIds(payload)), record, payload, newIds)
  }

  /** What the database promises of generated ids: new, all different, and named by nobody. */
  ghost predicate Fresh(store: Store, payload: seq<Entry>, newIds: seq<Id>) {
    && |newIds| == |payload|
    && (forall i, j | 0 <= i < j < |newIds| :: newIds[i] != newIds[j])
    && (forall i | 0 <= i < |newIds| :: newIds[i] !in store.items && newIds[i] !in PayloadIds(payload))
    && (forall l | l in store.links :: store.links[l].item !in newIds)
  }

  /** Where each entry ends up, read off the tables before the update. */
  function Targets(store: Store, record: Id, payload: seq<Entry>, newIds: seq<Id>): (targets: seq<Id>)
    requires |newIds| == |payload|
    ensures |targets| == |payload|
    ensures forall i | 0 <= i < |payload| :: targets[i] == Target(store, record, payload[i], newIds[i])
  {
    seq(|payload|, i requires 0 <= i < |payload| => Target(store, record, payload[i], newIds[i]))
  }

  /** Entry i is the last one of the first `n` for its item. */
  ghost predicate LastFor(targets: seq<Id>, i: nat, n: nat)
    requires n <= |targets|
  {
    i < n && forall j | i < j < n :: targets[j] != targets[i]
  }

  // ---------- invariant of the fold ----------

  /** Items: the last entry written to an item decides its fields. */
  ghost predicate ItemsAfter(base: Store, after: Store, record: Id, payload: seq<Entry>, targets: seq<Id>, n: nat)
    requires |targets| == |payload| && n <= |payload|
  {
    && (forall id :: id in after.items <==> id in base.items || id in targets[..n])
    && (forall id | id in base.items && id !in targets[..n] :: after.items[id] == base.items[id])
    && (forall i | 0 <= i < n && LastFor(targets, i, n) ::
          targets[i] in after.items && after.items[targets[i]] == ItemFrom(record, payload[i]))
  }

  /** Files: so it does for the set of linked files. */
  ghost predicate FilesAfter(after: Store, payload: seq<Entry>, targets: seq<Id>, n: nat)
    requires |targets| == |payload| && n <= |payload|
  {
    forall i | 0 <= i < n && LastFor(targets, i, n) :: FilesOf(after, targets[i]) == Files(payload[i].files)
  }

  /** Links of other items: the very same rows. */
  ghost predicate LinksAfter(base: Store, after: Store, targets: seq<Id>, n: nat)
    requires n <= |targets|
  {
    && (forall l | l in base.links && base.links[l].item !in targets[..n] ::
          l in after.links && after.links[l] == base.links[l])
    && (forall l | l in after.links && after.links[l].item !in targets[..n] ::
          l in base.links && base.links[l] == after.links[l])
  }

  /** The tables after the first `n` entries, compared with the tables `base` right after the deletes. */
  ghost predicate AfterEntries(base: Store, after: Store, record: Id, payload: seq<Entry>, targets: seq<Id>, n: nat)
    requires |targets| == |payload| && n <= |payload|
  {
    && Valid(after)
    && ItemsAfter(base, after, record, payload, targets, n)
    && FilesAfter(after, payload, targets, n)
    && LinksAfter(base, after, targets, n)
  }

  function Base(store: Store, record: Id, payload: seq<Entry>): Store {
    DropItems(store, RecordItems(store, record) - PayloadIds(payload))
  }

  /** A targeted item has a last entry. */
  lemma {:induction false} LastTarget(targets: seq<Id>, id: Id, n: nat)
    requires n <= |targets| && id in targets[..n]
    ensures exists i :: 0 <= i < n && targets[i] == id && LastFor(targets, i, n)
  {
    if targets[n - 1] == id {
      assert LastFor(targets, n - 1, n);
    } else {
      LastTarget(targets, id, n - 1);
      var i :| 0 <= i < n - 1 && targets[i] == id && LastFor(targets, i, n - 1);
      assert LastFor(targets, i, n);
    }
  }

  /** Whether an entry is matched does not change while entries are applied. */
  lemma MatchingIsStable(store: Store, record: Id, payload: seq<Entry>, newIds: seq<Id>, mid: Store, n: nat)
    requires Fresh(store, payload, newIds) && n < |payload|
    requires AfterEntries(Base(store, record, payload), mid, record, payload, Targets(store, record, payload, newIds), n)
    ensures Target(mid, record, payload[n], newIds[n]) == Targets(store, record, payload, newIds)[n]
  {
    var entry := payload[n];
    var targets := Targets(store, record, payload, newIds);
    if entry.id.Some? {
      var id := entry.id.value;
      assert entry in payload && id in PayloadIds(payload);
      assert id !in newIds;
      if id in targets[..n] {
        LastTarget(targets, id, n);
        var i :| 0 <= i < n && targets[i] == id && LastFor(targets, i, n);
        assert mid.items[id] == ItemFrom(record, payload[i]);
      }
    }
  }

  lemma ItemsStep(base: Store, mid: Store, written: Store, record: Id, payload: seq<Entry>, targets: seq<Id>, n: nat)
    requires |targets| == |payload| && n < |payload|
    requires ItemsAfter(base, mid, record, payload, targets, n)
    requires written.items == mid.items[targets[n] := ItemFrom(record, payload[n])]
    ensures ItemsAfter(base, written, record, payload, targets, n + 1)
  {
    assert targets[..n + 1] == targets[..n] + [targets[n]];
    forall i | 0 <= i < n + 1 && LastFor(targets, i, n + 1)
      ensures targets[i] in written.items && written.items[targets[i]] == ItemFrom(record, payload[i])
    {
      assert i < n ==> LastFor(targets, i, n) && targets[n] != targets[i];
    }
  }

  lemma FilesStep(form: Form, mid: Store, record: Id, payload: seq<Entry>, targets: seq<Id>, n: nat)
    requires Valid(mid) && |targets| == |payload| && n < |payload|
    requires FilesAfter(mid, payload, targets, n)
    ensures var written := mid.(items := mid.items[targets[n] := ItemFrom(record, payload[n])]);
            FilesAfter(SyncFiles(form, written, targets[n], payload[n].files), payload, targets, n + 1)
  {
    var written := mid.(items := mid.items[targets[n] := ItemFrom(record, payload[n])]);
    SyncFilesSets(form, written, targets[n], payload[n].files);
    forall i | 0 <= i < n && LastFor(targets, i, n + 1)
      ensures FilesOf(SyncFiles(form, written, targets[n], payload[n].files), targets[i]) == Files(payload[i].files)
    {
      assert LastFor(targets, i, n) && targets[n] != targets[i];
      SyncFilesElsewhere(form, written, targets[n], payload[n].files, targets[i]);
      assert FilesOf(written, targets[i]) == FilesOf(mid, targets[i]);
    }
  }

  lemma LinksStep(form: Form, base: Store, mid: Store, record: Id, payload: seq<Entry>, targets: seq<Id>, n: nat)
    requires Valid(mid) && |targets| == |payload| && n < |payload|
    requires LinksAfter(base, mid, targets, n)
    ensures var written := mid.(items := mid.items[targets[n] := ItemFrom(record, payload[n])]);
            LinksAfter(base, SyncFiles(form, written, targets[n], payload[n].files), targets, n + 1)
  {
    assert targets[..n + 1] == targets[..n] + [targets[n]];
    SyncFilesSets(form, mid.(items := mid.items[targets[n] := ItemFrom(record, payload[n])]), targets[n], payload[n].files);
  }

  /** One more entry. */
  lemma EntryStep(form: Form, store: Store, record: Id, payload: seq<Entry>, newIds: seq<Id>, mid: Store, n: nat)
    requires Valid(store) && Fresh(store, payload, newIds) && n < |payload|
    requires AfterEntries(Base(store, record, payload), mid, record, payload, Targets(store, record, payload, newIds), n)
    ensures AfterEntries(Base(store, record, payload), ApplyEntry(form, mid, record, payload[n], newIds[n]),
                         record, payload, Targets(store, record, payload, newIds), n + 1)
  {
    var targets := Targets(store, record, payload, newIds);
    MatchingIsStable(store, record, payload, newIds, mid, n);
    var written := mid.(items := mid.items[targets[n] := ItemFrom(record, payload[n])]);
    SyncFilesSets(form, written, targets[n], payload[n].files);
    ItemsStep(Base(store, record, payload), mid, SyncFiles(form, written, targets[n], payload[n].files), record, payload, targets, n);
    FilesStep(form, mid, record, payload, targets, n);
    LinksStep(form, Base(store, record, payload), mid, record, payload, targets, n);
  }

  lemma {:induction false} FoldInvariant(form: Form, store: Store, record: Id, payload: seq<Entry>, newIds: seq<Id>, n: nat)
    requires Valid(store) && Fresh(store, payload, newIds) && n <= |payload|
    ensures AfterEntries(Base(store, record, payload),
                         ApplyEntries(form, Base(store, record, payload), record, payload[..n], newIds[..n]),
                         record, payload, Targets(store, record, payload, newIds), n)
  {
    if n > 0 {
      FoldInvariant(form, store, record, payload, newIds, n - 1);
      ApplyNext(form, Base(store, record, payload), record, payload, newIds, n - 1);
      EntryStep(form, store, record, payload, newIds,
                ApplyEntries(form, Base(store, record, payload), record, payload[..n - 1], newIds[..n - 1]), n - 1);
    } else {
      NoEntriesYet(form, store, record, payload, newIds);
    }
  }

  lemma NoEntriesYet(form: Form, store: Store, record: Id, payload: seq<Entry>, newIds: seq<Id>)
    requires Valid(store) && Fresh(store, payload, newIds)
    ensures AfterEntries(Base(store, record, payload),
                         ApplyEntries(form, Base(store, record, payload), record, payload[..0], newIds[..0]),
                         record, payload, Targets(store, record, payload, newIds), 0)
  {
  }

  lemma WholeFold(form: Form, store: Store, record: Id, payload: seq<Entry>, newIds: seq<Id>)
    requires Valid(store) && Fresh(store, payload, newIds)
    ensures AfterEntries(Base(store, record, payload), ApplyPayload(form, store, record, payload, newIds),
                         record, payload, Targets(store, record, payload, newIds), |payload|)
  {
    assert payload[..|payload|] == payload && newIds[..|payload|] == newIds;
    FoldInvariant(form, store, record, payload, newIds, |payload|);
  }

  // ---------- what an update does ----------

  /**
   After an update the record has exactly the old items its payload names, under their old ids, and
   one new item per entry that names none of them. Each carries the fields, and is linked to exactly
   the files, of the last entry written to it.
   */
  lemma RecordMatchesPayload(form: Form, store: Store, record: Id, payload: seq<Entry>, newIds: seq<Id>)
    requires Valid(store) && Fresh(store, payload, newIds)
    ensures var after, targets := ApplyPayload(form, store, record, payload, newIds), Targets(store, record, payload, newIds);
            && RecordItems(after, record) ==
               (RecordItems(store, record) * PayloadIds(payload))
               + (set i | 0 <= i < |payload| && !Matched(store, record, payload[i]) :: newIds[i])
            && (forall i | 0 <= i < |payload| && LastFor(targets, i, |payload|) ::
                  && targets[i] in after.items && after.items[targets[i]] == ItemFrom(record, payload[i])
                  && FilesOf(after, targets[i]) == Files(payload[i].files))
  {
    WholeFold(form, store, record, payload, newIds);
    var after := ApplyPayload(form, store, record, payload, newIds);
    var created := set i | 0 <= i < |payload| && !Matched(store, record, payload[i]) :: newIds[i];
    forall id ensures id in RecordItems(after, record) <==>
                      id in RecordItems(store, record) * PayloadIds(payload) || id in created
    {
      ItemsOfRecord(form, store, record, payload, newIds, id);
    }
  }

  lemma ItemsOfRecord(form: Form, store: Store, record: Id, payload: seq<Entry>, newIds: seq<Id>, id: Id)
    requires Valid(store) && Fresh(store, payload, newIds)
    requires AfterEntries(Base(store, record, payload), ApplyPayload(form, store, record, payload, newIds),
                          record, payload, Targets(store, record, payload, newIds), |payload|)
    ensures id in RecordItems(ApplyPayload(form, store, record, payload, newIds), record) <==>
            || id in RecordItems(store, record) * PayloadIds(payload)
            || exists i :: 0 <= i < |payload| && !Matched(store, record, payload[i]) && newIds[i] == id
  {
    var n := |payload|;
    var targets := Targets(store, record, payload, newIds);
    var after := ApplyPayload(form, store, record, payload, newIds);
    assert targets[..n] == targets;
    if id in targets {
      LastTarget(targets, id, n);
      var i :| 0 <= i < n && targets[i] == id && LastFor(targets, i, n);
      assert after.items[id] == ItemFrom(record, payload[i]);
      TargetIsNamedOrNew(store, record, payload, newIds, i);
    } else {
      forall i | 0 <= i < |payload| && !Matched(store, record, payload[i]) ensures newIds[i] != id {
        assert targets[i] == newIds[i];
      }
      NamedIsTargeted(store, record, payload, newIds, id);
      assert id in after.items ==> after.items[id] == store.items[id];
    }
  }

  lemma TargetIsNamedOrNew(store: Store, record: Id, payload: seq<Entry>, newIds: seq<Id>, i: nat)
    requires |newIds| == |payload| && i < |payload|
    ensures var id := Targets(store, record, payload, newIds)[i];
            || id in RecordItems(store, record) * PayloadIds(payload)
            || (!Matched(store, record, payload[i]) && newIds[i] == id)
  {
    assert payload[i] in payload;
  }

  lemma NamedIsTargeted(store: Store, record: Id, payload: seq<Entry>, newIds: seq<Id>, id: Id)
    requires |newIds| == |payload|
    ensures id in RecordItems(store, record) * PayloadIds(payload) ==> id in Targets(store, record, payload, newIds)
  {
    var targets := Targets(store, record, payload, newIds);
    if id in RecordItems(store, record) * PayloadIds(payload) {
      var entry :| entry in payload && entry.id.Some? && entry.id.value == id;
      var i :| 0 <= i < |payload| && payload[i] == entry;
      assert targets[i] == id;
    }
  }

  /** In the tables before the update, this identifier names an item of the record. */
  ghost predicate NamesOwn(store: Store, record: Id, id: Option<Id>) {
    id.Some? && id.value in store.items && store.items[id.value].record == record
  }

  /** The item that entry i of the payload is about. */
  ghost function ItemAbout(store: Store, record: Id, payload: seq<Entry>, newIds: seq<Id>, i: nat): Id
    requires |newIds| == |payload| && i < |payload|
  {
    if NamesOwn(store, record, payload[i].id) then payload[i].id.value else newIds[i]
  }

  /** No later entry is about the same item. */
  ghost predicate LastAbout(store: Store, record: Id, payload: seq<Entry>, newIds: seq<Id>, i: nat)
    requires |newIds| == |payload| && i < |payload|
  {
    forall j | i < j < |payload| ::
      ItemAbout(store, record, payload, newIds, j) != ItemAbout(store, record, payload, newIds, i)
  }

  /** The last entry about an item is stored field by field, with a link for each file it lists and no other. */
  lemma StoredAsSent(form: Form, store: Store, record: Id, payload: seq<Entry>, newIds: seq<Id>, i: nat)
    requires Valid(store) && Fresh(store, payload, newIds)
    requires i < |payload| && LastAbout(store, record, payload, newIds, i)
    ensures var after, id := ApplyPayload(form, store, record, payload, newIds), ItemAbout(store, record, payload, newIds, i);
            && id in after.items
            && after.items[id].record == record && after.items[id].sortOrder == payload[i].sortOrder
            && after.items[id].groupName == payload[i].groupName && after.items[id].notes == payload[i].notes
            && (forall f :: (exists l :: l in after.links && after.links[l] == Link(id, f)) <==> f in payload[i].files)
  {
    var after, id := ApplyPayload(form, store, record, payload, newIds), ItemAbout(store, record, payload, newIds, i);
    var targets := Targets(store, record, payload, newIds);
    RecordMatchesPayload(form, store, record, payload, newIds);
    assert forall j | 0 <= j < |payload| :: targets[j] == ItemAbout(store, record, payload, newIds, j);
    assert LastFor(targets, i, |payload|);
    forall f ensures (exists l :: l in after.links && after.links[l] == Link(id, f)) <==> f in payload[i].files {
      LinkedExactly(after, id, f);
      assert f in Files(payload[i].files) <==> f in payload[i].files;
    }
  }

  lemma LinkedExactly(store: Store, item: Id, file: int)
    ensures (exists l :: l in store.links && store.links[l] == Link(item, file)) <==> file in FilesOf(store, item)
  {
    if file in FilesOf(store, item) {
      var l :| l in store.links && store.links[l].item == item && store.links[l].file == file;
      assert store.links[l] == Link(item, file);
    }
  }

  /** An item of the record stays exactly when an entry names it; one that goes takes its links along. */
  lemma UnnamedGo(form: Form, store: Store, record: Id, payload: seq<Entry>, newIds: seq<Id>, id: Id)
    requires Valid(store) && Fresh(store, payload, newIds)
    requires id in store.items && store.items[id].record == record
    ensures var after := ApplyPayload(form, store, record, payload, newIds);
            && (id in after.items <==> exists i :: 0 <= i < |payload| && payload[i].id == Some(id))
            && (id !in after.items ==> forall l | l in after.links :: after.links[l].item != id)
  {
    var after, targets := ApplyPayload(form, store, record, payload, newIds), Targets(store, record, payload, newIds);
    var n := |payload|;
    WholeFold(form, store, record, payload, newIds);
    assert targets[..n] == targets;
    assert id in PayloadIds(payload) <==> exists i :: 0 <= i < n && payload[i].id == Some(id) by {
      if id in PayloadIds(payload) {
        var entry :| entry in payload && entry.id.Some? && entry.id.value == id;
        var i :| 0 <= i < n && payload[i] == entry;
      }
      if i :| 0 <= i < n && payload[i].id == Some(id) {
        assert payload[i] in payload;
      }
    }
    NamedIsTargeted(store, record, payload, newIds, id);
    if id in targets {
      var i :| 0 <= i < n && targets[i] == id;
      TargetIsNamedOrNew(store, record, payload, newIds, i);
    }
  }

  /** What is new in the record is one item for each entry that names none of its items. */
  lemma NewItems(form: Form, store: Store, record: Id, payload: seq<Entry>, newIds: seq<Id>, id: Id)
    requires Valid(store) && Fresh(store, payload, newIds) && id !in store.items
    ensures var after := ApplyPayload(form, store, record, payload, newIds);
            id in after.items <==> exists i :: 0 <= i < |payload| && newIds[i] == id && !NamesOwn(store, record, payload[i].id)
  {
    var after, targets := ApplyPayload(form, store, record, payload, newIds), Targets(store, record, payload, newIds);
    WholeFold(form, store, record, payload, newIds);
    assert targets[..|payload|] == targets;
    if id in targets {
      var i :| 0 <= i < |payload| && targets[i] == id;
      assert newIds[i] == id && !NamesOwn(store, record, payload[i].id);
    }
    if i :| 0 <= i < |payload| && newIds[i] == id && !NamesOwn(store, record, payload[i].id) {
      assert targets[i] == id;
    }
  }

  ghost predicate OfOther(store: Store, record: Id, item: Id) {
    item in store.items && store.items[item].record != record
  }

  /** Items of other records stay as they are, with the very same link rows. */
  lemma OtherRecordsUntouched(form: Form, store: Store, record: Id, payload: seq<Entry>, newIds: seq<Id>)
    requires Valid(store) && Fresh(store, payload, newIds)
    ensures var after := ApplyPayload(form, store, record, payload, newIds);
            && (forall id :: OfOther(after, record, id) <==> OfOther(store, record, id))
            && (forall id | OfOther(store, record, id) :: after.items[id] == store.items[id])
            && (forall l | l in store.links && OfOther(store, record, store.links[l].item) ::
                  l in after.links && after.links[l] == store.links[l])
            && (forall l | l in after.links && OfOther(store, record, after.links[l].item) ::
                  l in store.links && store.links[l] == after.links[l])
  {
    var n := |payload|;
    var targets := Targets(store, record, payload, newIds);
    assert targets[..n] == targets;
    WholeFold(form, store, record, payload, newIds);
    assert forall id | OfOther(store, record, id) :: id !in targets;
    forall id | id in targets
      ensures id in ApplyPayload(form, store, record, payload, newIds).items
      ensures ApplyPayload(form, store, record, payload, newIds).items[id].record == record
    {
      LastTarget(targets, id, n);
    }
  }

  // ---------- replaying a payload ----------

  /** Entries for the same item ask for the same files. */
  ghost predicate Agree(payload: seq<Entry>) {
    forall i, j | 0 <= i < |payload| && 0 <= j < |payload| && payload[i].id == payload[j].id ::
      Files(payload[i].files) == Files(payload[j].files)
  }

  ghost predicate LinksWithin(small: Store, large: Store) {
    forall l | l in small.links :: l in large.links && large.links[l] == small.links[l]
  }

  /** Row numbers only grow, and as long as they do not, no link is inserted. */
  lemma EntryOnlyShrinks(form: Form, mid: Store, record: Id, entry: Entry, newId: Id)
    requires Valid(mid)
    ensures var after := ApplyEntry(form, mid, record, entry, newId);
            && Valid(after) && mid.nextLink <= after.nextLink
            && (mid.nextLink == after.nextLink ==> LinksWithin(after, mid))
  {
    var item := Target(mid, record, entry, newId);
    var written := mid.(items := mid.items[item := ItemFrom(record, entry)]);
    SyncFilesSets(form, written, item, entry.files);
    SyncFilesNoChange(form, written, item, entry.files);
  }

  lemma {:induction false} LinksOnlyShrink(form: Form, store: Store, record: Id, payload: seq<Entry>, newIds: seq<Id>, n: nat)
    requires Valid(store) && |newIds| == |payload| && n <= |payload|
    ensures var mid, end := ApplyEntries(form, store, record, payload[..n], newIds[..n]), ApplyEntries(form, store, record, payload, newIds);
            && Valid(mid) && mid.nextLink <= end.nextLink
            && (mid.nextLink == end.nextLink ==> LinksWithin(end, mid))
    decreases |payload| - n, 1
  {
    ApplyStaysValid(form, store, record, payload[..n], newIds[..n]);
    if n == |payload| {
      assert payload[..n] == payload && newIds[..n] == newIds;
    } else {
      LinksOnlyShrink(form, store, record, payload, newIds, n + 1);
      assert payload[..n + 1][..n] == payload[..n] && newIds[..n + 1][..n] == newIds[..n];
      EntryOnlyShrinks(form, ApplyEntries(form, store, record, payload[..n], newIds[..n]), record, payload[n], newIds[n]);
    }
  }

  lemma {:induction false} ApplyStaysValid(form: Form, store: Store, record: Id, payload: seq<Entry>, newIds: seq<Id>)
    requires Valid(store) && |newIds| == |payload|
    ensures Valid(ApplyEntries(form, store, record, payload, newIds))
    ensures store.nextLink <= ApplyEntries(form, store, record, payload, newIds).nextLink
  {
    if payload != [] {
      var n := |payload| - 1;
      ApplyStaysValid(form, store, record, payload[..n], newIds[..n]);
      EntryOnlyShrinks(form, ApplyEntries(form, store, record, payload[..n], newIds[..n]), record, payload[n], newIds[n]);
    }
  }

  /** A state the payload has just produced: replaying it deletes no item and names only known ones. */
  ghost predicate Settled(store: Store, record: Id, payload: seq<Entry>) {
    && Valid(store)
    && (forall entry | entry in payload :: Matched(store, record, entry))
    && RecordItems(store, record) <= PayloadIds(payload)
    && (forall i | 0 <= i < |payload| && LastNamed(payload, i) ::
          && Matched(store, record, payload[i])
          && store.items[payload[i].id.value] == ItemFrom(record, payload[i])
          && FilesOf(store, payload[i].id.value) == Files(payload[i].files))
  }

  /** Entry i is the last one with its id. */
  ghost predicate LastNamed(payload: seq<Entry>, i: nat) {
    i < |payload| && payload[i].id.Some? && forall j | i < j < |payload| :: payload[j].id != payload[i].id
  }

  /** Updating with a payload whose ids all match leaves a settled state. */
  lemma UpdateSettles(form: Form, store: Store, record: Id, payload: seq<Entry>, newIds: seq<Id>)
    requires Valid(store) && Fresh(store, payload, newIds)
    requires forall entry | entry in payload :: Matched(store, record, entry)
    ensures Settled(ApplyPayload(form, store, record, payload, newIds), record, payload)
  {
    var after, targets := ApplyPayload(form, store, record, payload, newIds), Targets(store, record, payload, newIds);
    RecordMatchesPayload(form, store, record, payload, newIds);
    WholeFold(form, store, record, payload, newIds);
    TargetsAreNames(store, record, payload, newIds);
    assert (set i | 0 <= i < |payload| && !Matched(store, record, payload[i]) :: newIds[i]) == {} by {
      assert forall i | 0 <= i < |payload| :: payload[i] in payload;
    }
    SettledAll(RecordItems(store, record), after, record, payload, targets);
  }

  /** What the fold leaves is a settled state once every target is the entry's own id. */
  lemma SettledAll(before: set<Id>, after: Store, record: Id, payload: seq<Entry>, targets: seq<Id>)
    requires Valid(after) && |targets| == |payload|
    requires forall i | 0 <= i < |payload| :: payload[i].id.Some? && targets[i] == payload[i].id.value && targets[i] in before
    requires RecordItems(after, record) == before * PayloadIds(payload)
    requires forall i | 0 <= i < |payload| && LastFor(targets, i, |payload|) ::
               && targets[i] in after.items && after.items[targets[i]] == ItemFrom(record, payload[i])
               && FilesOf(after, targets[i]) == Files(payload[i].files)
    ensures Settled(after, record, payload)
  {
    forall entry | entry in payload ensures Matched(after, record, entry) {
      var i :| 0 <= i < |payload| && payload[i] == entry;
      assert entry.id.value in RecordItems(after, record);
    }
    forall i | 0 <= i < |payload| && LastNamed(payload, i) ensures LastFor(targets, i, |payload|) {
      assert payload[i] in payload;
    }
  }

  lemma TargetsAreNames(store: Store, record: Id, payload: seq<Entry>, newIds: seq<Id>)
    requires Fresh(store, payload, newIds) && forall entry | entry in payload :: Matched(store, record, entry)
    ensures forall i | 0 <= i < |payload| ::
              payload[i].id.Some? && Targets(store, record, payload, newIds)[i] == payload[i].id.value
  {
    assert forall i | 0 <= i < |payload| :: payload[i] in payload;
  }

  lemma DropNothing(store: Store)
    ensures DropItems(store, {}) == store
  {
  }

  lemma {:induction false} LastOfName(payload: seq<Entry>, k: nat)
    requires k < |payload| && payload[k].id.Some?
    ensures exists i :: k <= i < |payload| && LastNamed(payload, i) && payload[i].id == payload[k].id
    decreases |payload| - k
  {
    if !LastNamed(payload, k) {
      var j :| k < j < |payload| && payload[j].id == payload[k].id;
      LastOfName(payload, j);
    }
  }

  /** Replaying onto a settled state ends with the same items. */
  lemma ReplayKeepsItems(form: Form, store: Store, record: Id, payload: seq<Entry>, newIds: seq<Id>)
    requires Settled(store, record, payload) && Fresh(store, payload, newIds)
    ensures ApplyPayload(form, store, record, payload, newIds).items == store.items
    ensures ApplyPayload(form, store, record, payload, newIds) == ApplyEntries(form, store, record, payload, newIds)
  {
    var targets := Targets(store, record, payload, newIds);
    var after := ApplyPayload(form, store, record, payload, newIds);
    DropNothing(store);
    assert RecordItems(store, record) - PayloadIds(payload) == {};
    WholeFold(form, store, record, payload, newIds);
    SettledItems(store, after, record, payload, targets);
  }

  lemma SettledItems(store: Store, after: Store, record: Id, payload: seq<Entry>, targets: seq<Id>)
    requires Settled(store, record, payload) && |targets| == |payload|
    requires forall i | 0 <= i < |payload| && Matched(store, record, payload[i]) :: targets[i] == payload[i].id.value
    requires ItemsAfter(store, after, record, payload, targets, |payload|)
    ensures after.items == store.items
  {
    var n := |payload|;
    assert targets[..n] == targets;
    forall id | id in targets ensures id in store.items && id in after.items && after.items[id] == store.items[id] {
      LastTarget(targets, id, n);
      var i :| 0 <= i < n && targets[i] == id && LastFor(targets, i, n);
      SettledItem(store, record, payload, targets, i);
    }
  }

  lemma SettledItem(store: Store, record: Id, payload: seq<Entry>, targets: seq<Id>, i: nat)
    requires Settled(store, record, payload) && |targets| == |payload| && i < |payload|
    requires forall j | 0 <= j < |payload| && Matched(store, record, payload[j]) :: targets[j] == payload[j].id.value
    requires LastFor(targets, i, |payload|)
    ensures targets[i] in store.items && store.items[targets[i]] == ItemFrom(record, payload[i])
  {
    forall j | 0 <= j < |payload| ensures Matched(store, record, payload[j]) && targets[j] == payload[j].id.value {
      assert payload[j] in payload;
    }
    assert LastNamed(payload, i);
  }

  /** Every step of a replay that inserts nothing leaves the links alone. */
  lemma QuietReplay(form: Form, store: Store, record: Id, payload: seq<Entry>, newIds: seq<Id>, n: nat)
    requires Valid(store) && |newIds| == |payload| && n <= |payload|
    requires ApplyEntries(form, store, record, payload, newIds).links == store.links
    requires ApplyEntries(form, store, record, payload, newIds).nextLink == store.nextLink
    ensures ApplyEntries(form, store, record, payload[..n], newIds[..n]).links == store.links
    ensures ApplyEntries(form, store, record, payload[..n], newIds[..n]).nextLink == store.nextLink
  {
    var mid := ApplyEntries(form, store, record, payload[..n], newIds[..n]);
    LinksOnlyShrink(form, store, record, payload, newIds, n);
    ApplyStaysValid(form, store, record, payload[..n], newIds[..n]);
    assert payload[..n][..0] == [] && newIds[..n][..0] == [];
    LinksOnlyShrink(form, store, record, payload[..n], newIds[..n], 0);
    assert LinksWithin(mid, store) && LinksWithin(store, mid);
  }

  /** The state in which entry n of a replay is applied, and the item it is applied to. */
  lemma ReplayStep(form: Form, store: Store, record: Id, payload: seq<Entry>, newIds: seq<Id>, n: nat)
    requires Settled(store, record, payload) && Fresh(store, payload, newIds) && n < |payload|
    ensures var mid := ApplyEntries(form, store, record, payload[..n], newIds[..n]);
            && Valid(mid)
            && ApplyEntries(form, store, record, payload[..n + 1], newIds[..n + 1]) == ApplyEntry(form, mid, record, payload[n], newIds[n])
            && payload[n].id.Some?
            && Target(mid, record, payload[n], newIds[n]) == payload[n].id.value
  {
    assert payload[..n + 1][..n] == payload[..n] && newIds[..n + 1][..n] == newIds[..n];
    DropNothing(store);
    assert RecordItems(store, record) - PayloadIds(payload) == {};
    assert Base(store, record, payload) == store;
    FoldInvariant(form, store, record, payload, newIds, n);
    MatchingIsStable(store, record, payload, newIds, ApplyEntries(form, store, record, payload[..n], newIds[..n]), n);
    assert payload[n] in payload;
  }

  /** No entry asks for a file. */
  ghost predicate NoFiles(payload: seq<Entry>) {
    forall i | 0 <= i < |payload| :: payload[i].files == []
  }

  lemma {:induction false} AgreeingReplayIsQuiet(form: Form, store: Store, record: Id, payload: seq<Entry>, newIds: seq<Id>, n: nat)
    requires Settled(store, record, payload) && Fresh(store, payload, newIds) && n <= |payload| && Agree(payload)
    requires form.AsNumber? || NoFiles(payload)
    ensures ApplyEntries(form, store, record, payload[..n], newIds[..n]).links == store.links
    ensures ApplyEntries(form, store, record, payload[..n], newIds[..n]).nextLink == store.nextLink
  {
    if n > 0 {
      AgreeingReplayIsQuiet(form, store, record, payload, newIds, n - 1);
      ReplayStep(form, store, record, payload, newIds, n - 1);
      QuietEntry(form, store, record, payload, n - 1, ApplyEntries(form, store, record, payload[..n - 1], newIds[..n - 1]), newIds[n - 1]);
    }
  }

  lemma QuietEntry(form: Form, store: Store, record: Id, payload: seq<Entry>, n: nat, mid: Store, newId: Id)
    requires Settled(store, record, payload) && n < |payload| && Agree(payload) && (form.AsNumber? || NoFiles(payload))
    requires Valid(mid) && mid.links == store.links && mid.nextLink == store.nextLink
    requires payload[n].id.Some? && Target(mid, record, payload[n], newId) == payload[n].id.value
    ensures ApplyEntry(form, mid, record, payload[n], newId).links == store.links
    ensures ApplyEntry(form, mid, record, payload[n], newId).nextLink == store.nextLink
  {
    LastOfName(payload, n);
    var id := payload[n].id.value;
    var written := mid.(items := mid.items[id := ItemFrom(record, payload[n])]);
    assert FilesOf(written, id) == FilesOf(store, id);
    SyncFilesNoChange(form, written, id, payload[n].files);
  }

  lemma QuietReplayAgrees(form: Form, store: Store, record: Id, payload: seq<Entry>, newIds: seq<Id>, i: nat)
    requires Settled(store, record, payload) && Fresh(store, payload, newIds) && i < |payload|
    requires ApplyPayload(form, store, record, payload, newIds) == store
    ensures payload[i].id.Some? && Files(payload[i].files) == FilesOf(store, payload[i].id.value)
  {
    ReplayKeepsItems(form, store, record, payload, newIds);
    ReplayStep(form, store, record, payload, newIds, i);
    QuietReplay(form, store, record, payload, newIds, i);
    QuietReplay(form, store, record, payload, newIds, i + 1);
    var mid := ApplyEntries(form, store, record, payload[..i], newIds[..i]);
    var id := payload[i].id.value;
    var written := mid.(items := mid.items[id := ItemFrom(record, payload[i])]);
    var after := SyncFiles(form, written, id, payload[i].files);
    SyncFilesSets(form, written, id, payload[i].files);
    assert FilesOf(after, id) == FilesOf(store, id);
  }

  lemma TextReplayHasNoFiles(store: Store, record: Id, payload: seq<Entry>, newIds: seq<Id>, i: nat)
    requires Settled(store, record, payload) && Fresh(store, payload, newIds) && i < |payload|
    requires ApplyPayload(AsText, store, record, payload, newIds) == store
    ensures payload[i].files == []
  {
    ReplayKeepsItems(AsText, store, record, payload, newIds);
    ReplayStep(AsText, store, record, payload, newIds, i);
    QuietReplay(AsText, store, record, payload, newIds, i);
    QuietReplay(AsText, store, record, payload, newIds, i + 1);
    var mid := ApplyEntries(AsText, store, record, payload[..i], newIds[..i]);
    var id := payload[i].id.value;
    SyncFilesNoChange(AsText, mid.(items := mid.items[id := ItemFrom(record, payload[i])]), id, payload[i].files);
  }

  /**
   Replaying a payload onto the state it produced deletes and inserts nothing, not even for a moment,
   exactly when stored identifiers are read as numbers and entries that name the same item ask for the
   same set of files, or no entry asks for any. Read as text, as the driver gives them, every link of a
   replayed item is deleted and inserted again.
   */
  lemma ReplayIsQuietExactly(form: Form, store: Store, record: Id, payload: seq<Entry>, newIds: seq<Id>)
    requires Settled(store, record, payload) && Fresh(store, payload, newIds)
    ensures ApplyPayload(form, store, record, payload, newIds) == store <==>
              (form.AsNumber? && Agree(payload)) || NoFiles(payload)
  {
    ReplayKeepsItems(form, store, record, payload, newIds);
    assert payload[..|payload|] == payload && newIds[..|payload|] == newIds;
    if (form.AsNumber? && Agree(payload)) || NoFiles(payload) {
      AgreeingReplayIsQuiet(form, store, record, payload, newIds, |payload|);
    }
    if ApplyPayload(form, store, record, payload, newIds) == store {
      if form.AsText? {
        forall i | 0 <= i < |payload| ensures payload[i].files == [] {
          TextReplayHasNoFiles(store, record, payload, newIds, i);
        }
      }
      forall i | 0 <= i < |payload|
        ensures payload[i].id.Some? && Files(payload[i].files) == FilesOf(store, payload[i].id.value)
      {
        QuietReplayAgrees(form, store, record, payload, newIds, i);
      }
    }
  }

  const ITEM: Id := "i"
  const RECORD: Id := "r"
  const ONE_FILE := Entry(Some(ITEM), 0, "", None, [5])

  function Linked5(row: nat): Store {
    Store(map[ITEM := ItemFrom(RECORD, ONE_FILE)], map[row := Link(ITEM, 5)], row + 1)
  }

  lemma Linked5Settled(row: nat)
    ensures Settled(Linked5(row), RECORD, [ONE_FILE]) && FilesOf(Linked5(row), ITEM) == {5}
    ensures DropItems(Linked5(row), RecordItems(Linked5(row), RECORD) - PayloadIds([ONE_FILE])) == Linked5(row)
  {
    var store, payload := Linked5(row), [ONE_FILE];
    assert row in store.links && FilesOf(store, ITEM) == {5} && Files([5]) == {5};
    assert payload[0] == ONE_FILE && ITEM in PayloadIds(payload);
    assert RecordItems(store, RECORD) - PayloadIds(payload) == {};
    DropNothing(store);
  }

  lemma Add5(dropped: Store, row: nat)
    requires dropped == Store(map[ITEM := ItemFrom(RECORD, ONE_FILE)], map[], row + 1)
    ensures AddLinks(dropped, ITEM, [5]) == Linked5(row + 1)
  {
    AddedRows(dropped, ITEM, [5]);
    assert AddLinks(dropped, ITEM, [5]).links == map[row + 1 := Link(ITEM, 5)];
  }

  lemma TextSyncRewrites(store: Store, item: Id, files: seq<int>)
    ensures SyncFiles(AsText, store, item, files) == AddLinks(DropLinks(store, item, FilesOf(store, item)), item, files)
  {
    AllMissing(files);
    assert Gone(AsText, files, FilesOf(store, item)) == FilesOf(store, item);
  }

  lemma Drop5(row: nat)
    ensures DropLinks(Linked5(row), ITEM, {5}) == Store(map[ITEM := ItemFrom(RECORD, ONE_FILE)], map[], row + 1)
  {
    assert DropLinks(Linked5(row), ITEM, {5}).links == map[];
  }

  lemma Sync5(row: nat)
    ensures SyncFiles(AsText, Linked5(row), ITEM, [5]) == Linked5(row + 1)
  {
    Linked5Settled(row);
    TextSyncRewrites(Linked5(row), ITEM, [5]);
    Drop5(row);
    Add5(DropLinks(Linked5(row), ITEM, {5}), row);
  }

  /** An item linked to file 5 by one row; sending the file again replaces that row by a new one. */
  lemma TextReplayRewrites(row: nat)
    ensures Settled(Linked5(row), RECORD, [ONE_FILE])
    ensures ApplyPayload(AsText, Linked5(row), RECORD, [ONE_FILE], ["n"]) == Linked5(row + 1)
  {
    var store, payload := Linked5(row), [ONE_FILE];
    Linked5Settled(row);
    Sync5(row);
    assert payload[..0] == [] && ["n"][..0] == [];
    assert store.(items := store.items[ITEM := ItemFrom(RECORD, ONE_FILE)]) == store;
    assert ApplyEntries(AsText, store, RECORD, payload[..0], ["n"][..0]) == store;
    assert Matched(store, RECORD, ONE_FILE);
    assert ApplyPayload(AsText, store, RECORD, payload, ["n"]) == ApplyEntry(AsText, store, RECORD, ONE_FILE, "n");
  }

  // ---------- the service ----------

  lemma ApplyNext(form: Form, base: Store, record: Id, payload: seq<Entry>, newIds: seq<Id>, i: nat)
    requires |newIds| == |payload| && i < |payload|
    ensures ApplyEntries(form, base, record, payload[..i + 1], newIds[..i + 1]) ==
            ApplyEntry(form, ApplyEntries(form, base, record, payload[..i], newIds[..i]), record, payload[i], newIds[i])
  {
    assert payload[..i + 1][..i] == payload[..i] && newIds[..i + 1][..i] == newIds[..i];
  }

  class ArchiveRecordService {
    const form: Form
    var store: Store

    constructor (form: Form, store: Store)
      ensures this.form == form && this.store == store
    {
      this.form := form;
      this.store := store;
    }

    /** The item part of `update`; `newIds` are the identifiers the database generates on the way. */
    method UpdateItems(record: Id, payload: seq<Entry>, newIds: seq<Id>)
      requires |newIds| == |payload|
      modifies this
      ensures store == ApplyPayload(form, old(store), record, payload, newIds)
    {
      var gone := RecordItems(store, record) - PayloadIds(payload);
      if gone != {} {
        store := DropItems(store, gone);
      } else {
        DropNothing(store);
      }
      ghost var base := store;
      var i := 0;
      while i < |payload|
        invariant 0 <= i <= |payload|
        invariant store == ApplyEntries(form, base, record, payload[..i], newIds[..i])
      {
        ApplyNext(form, base, record, payload, newIds, i);
        UpdateItem(record, payload[i], newIds[i]);
        i := i + 1;
      }
      assert payload[..i] == payload && newIds[..i] == newIds;
    }

    /** One entry of the loop: the item it matches, or a new one, and then its files. */
    method UpdateItem(record: Id, entry: Entry, newId: Id)
      modifies this
      ensures store == ApplyEntry(form, old(store), record, entry, newId)
    {
      var item := newId;
      if Matched(store, record, entry) {
        item := entry.id.value;
      }
      store := store.(items := store.items[item := ItemFrom(record, entry)]);
      SetFiles(item, entry.files);
    }

    /** Deletes the links the list lacks, then inserts those it adds. */
    method SetFiles(item: Id, files: seq<int>)
      modifies this
      ensures store == SyncFiles(form, old(store), item, files)
    {
      var have := FilesOf(store, item);
      var gone := Gone(form, files, have);
      var missing := Missing(files, Met(form, have));
      store := DropLinks(store, item, gone);
      ghost var dropped := store;
      var i := 0;
      while i < |missing|
        invariant 0 <= i <= |missing|
        invariant store == AddLinks(dropped, item, missing[..i])
      {
        assert missing[..i + 1][..i] == missing[..i];
        store := store.(links := store.links[store.nextLink := Link(item, missing[i])], nextLink := store.nextLink + 1);
        i := i + 1;
      }
      assert missing[..i] == missing;
    }
  }
}
