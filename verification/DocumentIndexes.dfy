/**
 Synchronisation of an archive's document index with the list an update sends
 (backend_nest/src/archives-management/archives-management.service.ts).
 */
module DocumentIndexes {
  import opened Prelude

  /** `live` is status 1; a document taken off the list stays with status 0. */
  datatype Doc = Doc(archive: int, name: string, live: bool)

  /** The table and the identifier the next inserted row gets. */
  datatype Store = Store(table: map<int, Doc>, nextId: int)

  datatype Entry = Entry(id: Option<int>, name: string)

  predicate Valid(store: Store) {
    forall id | id in store.table :: id < store.nextId
  }

  function LiveDocs(store: Store, archive: int): set<int> {
    set id | id in store.table && store.table[id].archive == archive && store.table[id].live
  }

  /** The entry names a document that was live in this archive before the update. */
  predicate Matched(existing: set<int>, entry: Entry) {
    entry.id.Some? && entry.id.value != 0 && entry.id.value in existing
  }

  function Requested(entries: seq<Entry>, existing: set<int>): set<int> {
    set e | e in entries && Matched(existing, e) :: e.id.value
  }

  function Drop(store: Store, gone: set<int>): Store {
    store.(table := map id | id in store.table :: if id in gone then store.table[id].(live := false) else store.table[id])
  }

  function ApplyEntry(store: Store, archive: int, existing: set<int>, entry: Entry): Store {
    if !Matched(existing, entry) then Store(store.table[store.nextId := Doc(archive, entry.name, true)], store.nextId + 1)
    else if entry.id.value in store.table then
      store.(table := store.table[entry.id.value := store.table[entry.id.value].(name := entry.name)])
    else store
  }

  function Apply(store: Store, archive: int, existing: set<int>, entries: seq<Entry>): Store {
    if entries == [] then store
    else
      var n := |entries| - 1;
      ApplyEntry(Apply(store, archive, existing, entries[..n]), archive, existing, entries[n])
  }

  function Synced(store: Store, archive: int, entries: seq<Entry>): Store {
    var existing := LiveDocs(store, archive);
    Apply(Drop(store, existing - Requested(entries, existing)), archive, existing, entries)
  }

  // ---------- what the entries write ----------

  /** Number of entries that name no document. */
  function NewCount(entries: seq<Entry>, existing: set<int>): nat {
    if entries == [] then 0
    else NewCount(entries[..|entries| - 1], existing) + if Matched(existing, entries[|entries| - 1]) then 0 else 1
  }

  /** The name the last entry for a document gives it. */
  function LastName(entries: seq<Entry>, existing: set<int>, id: int): Option<string> {
    if entries == [] then None
    else
      var last := entries[|entries| - 1];
      if Matched(existing, last) && last.id.value == id then Some(last.name)
      else LastName(entries[..|entries| - 1], existing, id)
  }

  function Renamed(doc: Doc, name: Option<string>): Doc {
    if name.Some? then doc.(name := name.value) else doc
  }

  /** Identifier of the row the i-th entry inserts when it names no document. */
  function NewId(base: Store, existing: set<int>, entries: seq<Entry>, i: nat): int
    requires i <= |entries|
  {
    base.nextId + NewCount(entries[..i], existing)
  }

  ghost predicate RowsAfter(base: Store, after: Store, archive: int, existing: set<int>, entries: seq<Entry>) {
    && after.nextId == base.nextId + NewCount(entries, existing)
    && (forall id :: id in after.table <==> id in base.table || base.nextId <= id < after.nextId)
    && forall id | id in after.table && id !in base.table :: after.table[id].archive == archive && after.table[id].live
  }

  ghost predicate NamesAfter(base: Store, after: Store, existing: set<int>, entries: seq<Entry>) {
    forall id | id in base.table :: id in after.table && after.table[id] == Renamed(base.table[id], LastName(entries, existing, id))
  }

  ghost predicate NewAfter(base: Store, after: Store, archive: int, existing: set<int>, entries: seq<Entry>) {
    forall i | 0 <= i < |entries| && !Matched(existing, entries[i]) ::
      NewId(base, existing, entries, i) in after.table
      && after.table[NewId(base, existing, entries, i)] == Doc(archive, entries[i].name, true)
  }

  /** The store after the entries, compared with the one before them. */
  ghost predicate Applied(base: Store, after: Store, archive: int, existing: set<int>, entries: seq<Entry>) {
    && RowsAfter(base, after, archive, existing, entries)
    && NamesAfter(base, after, existing, entries)
    && NewAfter(base, after, archive, existing, entries)
  }

  lemma {:induction false} ApplyWrites(base: Store, archive: int, existing: set<int>, entries: seq<Entry>)
    requires Valid(base) && existing <= base.table.Keys
    ensures Applied(base, Apply(base, archive, existing, entries), archive, existing, entries)
  {
    if entries != [] {
      var n := |entries| - 1;
      var mid := Apply(base, archive, existing, entries[..n]);
      ApplyWrites(base, archive, existing, entries[..n]);
      assert entries == entries[..n] + [entries[n]];
      RowsStep(base, mid, archive, existing, entries[..n], entries[n]);
      NamesStep(base, mid, archive, existing, entries[..n], entries[n]);
      NewStep(base, mid, archive, existing, entries[..n], entries[n]);
    }
  }

  lemma RowsStep(base: Store, mid: Store, archive: int, existing: set<int>, front: seq<Entry>, e: Entry)
    requires Valid(base) && existing <= base.table.Keys && RowsAfter(base, mid, archive, existing, front)
    ensures RowsAfter(base, ApplyEntry(mid, archive, existing, e), archive, existing, front + [e])
  {
  }

  lemma NamesStep(base: Store, mid: Store, archive: int, existing: set<int>, front: seq<Entry>, e: Entry)
    requires Valid(base) && RowsAfter(base, mid, archive, existing, front) && NamesAfter(base, mid, existing, front)
    ensures NamesAfter(base, ApplyEntry(mid, archive, existing, e), existing, front + [e])
  {
  }

  lemma NewStep(base: Store, mid: Store, archive: int, existing: set<int>, front: seq<Entry>, e: Entry)
    requires Valid(base) && existing <= base.table.Keys
    requires RowsAfter(base, mid, archive, existing, front) && NewAfter(base, mid, archive, existing, front)
    ensures NewAfter(base, ApplyEntry(mid, archive, existing, e), archive, existing, front + [e])
  {
    var entries := front + [e];
    var after := ApplyEntry(mid, archive, existing, e);
    forall i | 0 <= i < |entries| && !Matched(existing, entries[i])
      ensures NewId(base, existing, entries, i) in after.table
      ensures after.table[NewId(base, existing, entries, i)] == Doc(archive, entries[i].name, true)
    {
      assert entries[..i] == front[..i];
      if i < |front| {
        assert front[i] == entries[i] && NewId(base, existing, front, i) in mid.table;
        assert NewId(base, existing, front, i) !in existing;
      } else {
        assert front[..i] == front;
      }
    }
  }

  lemma {:induction false} LastNameIsRequested(entries: seq<Entry>, existing: set<int>, id: int)
    ensures LastName(entries, existing, id).Some? <==> id in Requested(entries, existing)
  {
    if entries != [] {
      var n := |entries| - 1;
      LastNameIsRequested(entries[..n], existing, id);
      assert entries == entries[..n] + [entries[n]];
    }
  }

  // ---------- what an update does ----------

  /**
   The archive's live documents are afterwards exactly those it had that the list names, under their
   old identifiers and with the name of the last entry for them, and one new document for each other
   entry. No row disappears, and other archives' and earlier removed documents are untouched.
   */
  lemma IndexMatchesList(store: Store, archive: int, entries: seq<Entry>)
    requires Valid(store)
    ensures var existing := LiveDocs(store, archive);
            var after := Synced(store, archive, entries);
            && Valid(after)
            && LiveDocs(after, archive) == Requested(entries, existing) + (set id | id in after.table && store.nextId <= id)
            && after.nextId == store.nextId + NewCount(entries, existing)
            && (forall id | id in Requested(entries, existing) ::
                  id in after.table && LastName(entries, existing, id) == Some(after.table[id].name))
            && NewAfter(store, after, archive, existing, entries)
            && (forall id | id in store.table && id !in existing :: id in after.table && after.table[id] == store.table[id])
            && (forall id | id in existing - Requested(entries, existing) ::
                  id in after.table && after.table[id] == store.table[id].(live := false))
  {
    var existing := LiveDocs(store, archive);
    var requested := Requested(entries, existing);
    var base := Drop(store, existing - requested);
    ApplyWrites(base, archive, existing, entries);
    forall id ensures LastName(entries, existing, id).Some? <==> id in requested {
      LastNameIsRequested(entries, existing, id);
    }
    NewRowsStay(store, base, Synced(store, archive, entries), archive, existing, entries);
    LiveAfter(store, base, Synced(store, archive, entries), archive, existing, entries, requested);
  }

  lemma NewRowsStay(store: Store, base: Store, after: Store, archive: int, existing: set<int>, entries: seq<Entry>)
    requires base.nextId == store.nextId && NewAfter(base, after, archive, existing, entries)
    ensures NewAfter(store, after, archive, existing, entries)
  {
  }

  lemma LiveAfter(store: Store, base: Store, after: Store, archive: int, existing: set<int>, entries: seq<Entry>, requested: set<int>)
    requires Valid(store) && existing == LiveDocs(store, archive) && requested <= existing && base == Drop(store, existing - requested)
    requires RowsAfter(base, after, archive, existing, entries) && NamesAfter(base, after, existing, entries)
    ensures Valid(after) && LiveDocs(after, archive) == requested + (set id | id in after.table && store.nextId <= id)
  {
  }

  /** The entry is about this document: it carries its identifier, which is not 0, and the document was live in the archive. */
  ghost predicate About(store: Store, archive: int, entry: Entry, id: int) {
    entry.id == Some(id) && id != 0 && id in store.table && store.table[id].archive == archive && store.table[id].live
  }

  /**
   A document that was live in the archive stays so exactly when an entry is about it, under the name of the
   last such entry; it keeps its row in any case.
   */
  lemma StoredAsListed(store: Store, archive: int, entries: seq<Entry>, id: int)
    requires Valid(store) && id in store.table && store.table[id].archive == archive && store.table[id].live
    ensures var after := Synced(store, archive, entries);
            && id in after.table && after.table[id].archive == archive
            && (after.table[id].live <==> exists i :: 0 <= i < |entries| && About(store, archive, entries[i], id))
            && (!after.table[id].live ==> after.table[id].name == store.table[id].name)
            && (forall i | 0 <= i < |entries| && About(store, archive, entries[i], id)
                           && (forall j | i < j < |entries| :: !About(store, archive, entries[j], id)) ::
                  after.table[id].name == entries[i].name)
  {
    var existing, after := LiveDocs(store, archive), Synced(store, archive, entries);
    IndexMatchesList(store, archive, entries);
    assert id in Requested(entries, existing) <==> exists i :: 0 <= i < |entries| && About(store, archive, entries[i], id) by {
      if id in Requested(entries, existing) {
        var e :| e in entries && Matched(existing, e) && e.id.value == id;
        var i :| 0 <= i < |entries| && entries[i] == e;
        assert About(store, archive, entries[i], id);
      }
      if i :| 0 <= i < |entries| && About(store, archive, entries[i], id) {
        assert entries[i] in entries && Matched(existing, entries[i]);
      }
    }
    assert id in LiveDocs(after, archive) <==> id in Requested(entries, existing);
    KeepsArchive(store, archive, entries, id);
    forall i | 0 <= i < |entries| && About(store, archive, entries[i], id)
               && (forall j | i < j < |entries| :: !About(store, archive, entries[j], id))
      ensures LastName(entries, existing, id) == Some(entries[i].name)
    {
      LastNameAt(store, archive, entries, id, i);
    }
  }

  lemma KeepsArchive(store: Store, archive: int, entries: seq<Entry>, id: int)
    requires Valid(store) && id in store.table
    ensures id in Synced(store, archive, entries).table && Synced(store, archive, entries).table[id].archive == store.table[id].archive
  {
    var existing := LiveDocs(store, archive);
    var base := Drop(store, existing - Requested(entries, existing));
    ApplyWrites(base, archive, existing, entries);
    assert id in base.table && base.table[id].archive == store.table[id].archive;
  }

  lemma {:induction false} LastNameAt(store: Store, archive: int, entries: seq<Entry>, id: int, i: nat)
    requires i < |entries| && About(store, archive, entries[i], id)
    requires forall j | i < j < |entries| :: !About(store, archive, entries[j], id)
    ensures LastName(entries, LiveDocs(store, archive), id) == Some(entries[i].name)
  {
    var n := |entries| - 1;
    if i < n {
      assert !About(store, archive, entries[n], id);
      LastNameAt(store, archive, entries[..n], id, i);
    }
  }

  /** Each entry about none of them puts a new live document of its name into the archive; nothing else is new. */
  lemma NewAsListed(store: Store, archive: int, entries: seq<Entry>, i: nat)
    requires Valid(store) && i < |entries| && forall id :: !About(store, archive, entries[i], id)
    ensures var after, id := Synced(store, archive, entries), NewId(store, LiveDocs(store, archive), entries, i);
            && id !in store.table && id in after.table
            && after.table[id].archive == archive && after.table[id].live && after.table[id].name == entries[i].name
            && forall j | i < j < |entries| && (forall d :: !About(store, archive, entries[j], d)) ::
                 NewId(store, LiveDocs(store, archive), entries, j) > id
  {
    var existing := LiveDocs(store, archive);
    IndexMatchesList(store, archive, entries);
    assert !Matched(existing, entries[i]) by {
      if Matched(existing, entries[i]) {
        assert About(store, archive, entries[i], entries[i].id.value);
      }
    }
    forall j | i < j < |entries| ensures NewId(store, existing, entries, j) > NewId(store, existing, entries, i) {
      NewIdsGrow(entries, existing, i, j);
    }
  }

  lemma {:induction false} NewIdsGrow(entries: seq<Entry>, existing: set<int>, i: nat, j: nat)
    requires i < j <= |entries| && !Matched(existing, entries[i])
    ensures NewCount(entries[..j], existing) > NewCount(entries[..i], existing)
  {
    assert entries[..j][..j - 1] == entries[..j - 1];
    if i < j - 1 {
      NewIdsGrow(entries, existing, i, j - 1);
    }
  }

  lemma {:induction false} SameMatching(entries: seq<Entry>, a: set<int>, b: set<int>, id: int)
    requires forall e | e in entries :: Matched(a, e) <==> Matched(b, e)
    ensures LastName(entries, a, id) == LastName(entries, b, id) && NewCount(entries, a) == NewCount(entries, b)
  {
    if entries != [] {
      var n := |entries| - 1;
      assert entries[n] in entries && forall e | e in entries[..n] :: e in entries;
      SameMatching(entries[..n], a, b, id);
    }
  }

  lemma {:induction false} NothingNew(entries: seq<Entry>, existing: set<int>)
    requires forall e | e in entries :: Matched(existing, e)
    ensures NewCount(entries, existing) == 0
  {
    if entries != [] {
      var n := |entries| - 1;
      assert entries[n] in entries && forall e | e in entries[..n] :: e in entries;
      NothingNew(entries[..n], existing);
    }
  }

  /** Sending a list again whose entries all name live documents changes nothing. */
  lemma ReplayChangesNothing(store: Store, archive: int, entries: seq<Entry>)
    requires Valid(store) && forall e | e in entries :: Matched(LiveDocs(store, archive), e)
    ensures var once := Synced(store, archive, entries); Synced(once, archive, entries) == once
  {
    var existing := LiveDocs(store, archive);
    var once := Synced(store, archive, entries);
    IndexMatchesList(store, archive, entries);
    NothingNew(entries, existing);
    assert LiveDocs(once, archive) == Requested(entries, existing);
    ReplayOn(once, archive, existing, entries);
  }

  lemma ReplayOn(once: Store, archive: int, existing: set<int>, entries: seq<Entry>)
    requires Valid(once) && LiveDocs(once, archive) == Requested(entries, existing)
    requires forall e | e in entries :: Matched(existing, e)
    requires forall id | id in Requested(entries, existing) :: LastName(entries, existing, id) == Some(once.table[id].name)
    ensures Synced(once, archive, entries) == once
  {
    var again := LiveDocs(once, archive);
    forall e | e in entries ensures Matched(again, e) {
      assert e.id.value in Requested(entries, existing);
    }
    assert again - Requested(entries, again) == {};
    assert Drop(once, again - Requested(entries, again)) == once;
    ApplyWrites(once, archive, again, entries);
    NothingNew(entries, again);
    var twice := Synced(once, archive, entries);
    assert twice == Apply(once, archive, again, entries);
    forall id | id in once.table ensures id in twice.table && twice.table[id] == once.table[id] {
      SameMatching(entries, existing, again, id);
      LastNameIsRequested(entries, again, id);
      assert twice.table[id] == Renamed(once.table[id], LastName(entries, again, id));
    }
    assert twice.nextId == once.nextId;
    forall id | id in twice.table ensures id in once.table { }
    assert twice.table == once.table;
  }

  // ---------- the service ----------

  lemma DropNothing(store: Store)
    ensures Drop(store, {}) == store
  {
  }

  lemma SyncedIsValid(store: Store, archive: int, entries: seq<Entry>)
    requires Valid(store)
    ensures Valid(Synced(store, archive, entries))
  {
    IndexMatchesList(store, archive, entries);
  }

  class IndexService {
    var store: Store

    constructor (store: Store)
      ensures this.store == store
    {
      this.store := store;
    }

    /** The returned list has one document per entry, in order, under the entry's name. */
    method UpdateDocumentIndexes(archive: int, entries: seq<Entry>) returns (result: seq<(int, Doc)>)
      requires Valid(store)
      modifies this
      ensures Valid(store) && store == Synced(old(store), archive, entries)
      ensures |result| == |entries|
      ensures var existing := LiveDocs(old(store), archive);
              forall i | 0 <= i < |entries| :: ResultFor(result[i], entries[i], existing, NewId(old(store), existing, entries, i))
    {
      var existing := LiveDocs(store, archive);
      var gone := existing - Requested(entries, existing);
      ghost var base := Drop(store, gone);
      if gone != {} {
        store := Drop(store, gone);
      } else {
        DropNothing(store);
      }
      result := [];
      var i := 0;
      while i < |entries|
        invariant 0 <= i <= |entries| && |result| == i
        invariant store == Apply(base, archive, existing, entries[..i])
        invariant forall j | 0 <= j < i :: ResultFor(result[j], entries[j], existing, NewId(base, existing, entries, j))
      {
        var one := UpdateOne(archive, existing, entries, i, base);
        result := result + [one];
        i := i + 1;
      }
      assert entries[..i] == entries;
      SyncedIsValid(old(store), archive, entries);
    }

    /** One entry: the document it names gets the name, or a new row is inserted. */
    method UpdateOne(archive: int, existing: set<int>, entries: seq<Entry>, i: nat, ghost base: Store) returns (one: (int, Doc))
      requires Valid(base) && existing <= base.table.Keys && i < |entries|
      requires store == Apply(base, archive, existing, entries[..i])
      modifies this
      ensures store == Apply(base, archive, existing, entries[..i + 1])
      ensures ResultFor(one, entries[i], existing, NewId(base, existing, entries, i))
    {
      assert entries[..i + 1][..i] == entries[..i];
      ApplyWrites(base, archive, existing, entries[..i]);
      var id := store.nextId;
      if Matched(existing, entries[i]) {
        id := entries[i].id.value;
      }
      store := ApplyEntry(store, archive, existing, entries[i]);
      one := (id, store.table[id]);
    }
  }

  /** A result is the document the entry names, or the next new one, as just written. */
  ghost predicate ResultFor(result: (int, Doc), entry: Entry, existing: set<int>, newId: int) {
    result.1.name == entry.name && result.0 == if Matched(existing, entry) then entry.id.value else newId
  }
}
