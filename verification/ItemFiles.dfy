/**
 Replacing the files of one archive item: identifiers are normalised first, so that no file is linked
 twice (backend_nest/src/archive-records/archive-record.service.ts).
 */
module ItemFiles {
  import opened ArchiveItems

  /** The non-zero identifiers, each once, in order of first appearance. */
  function Normalised(files: seq<int>): (r: seq<int>)
    ensures forall f :: f in r <==> f in files && f != 0
    ensures forall i, j | 0 <= i < j < |r| :: r[i] != r[j]
  {
    if files == [] then []
    else
      var n := |files| - 1;
      var before := Normalised(files[..n]);
      if files[n] == 0 || files[n] in before then before else before + [files[n]]
  }

  /** The files linked to the item but for one without an identifier. */
  function Linked(store: Store, item: Id): set<int> {
    FilesOf(store, item) - {0}
  }

  function Replaced(store: Store, item: Id, files: seq<int>): Store {
    var wanted, have := Normalised(files), Linked(store, item);
    AddLinks(DropLinks(store, item, have - Files(wanted)), item, Missing(wanted, have))
  }

  /** No item is linked to a file by two rows. */
  ghost predicate OneLinkEach(store: Store) {
    forall l, m | l in store.links && m in store.links && l != m :: store.links[l] != store.links[m]
  }

  /** The rows of the link table afterwards: the kept ones, and one new one for each missing file. */
  ghost predicate RowsAfter(store: Store, after: Store, item: Id, gone: set<int>, missing: seq<int>) {
    && after.items == store.items && after.nextLink == store.nextLink + |missing|
    && (forall l :: l in after.links <==>
          (l in store.links && !(store.links[l].item == item && store.links[l].file in gone))
          || store.nextLink <= l < store.nextLink + |missing|)
    && (forall l | l in after.links && l < store.nextLink :: l in store.links && after.links[l] == store.links[l])
    && forall l | l in after.links && store.nextLink <= l < store.nextLink + |missing| ::
         after.links[l] == Link(item, missing[l - store.nextLink])
  }

  lemma ReplacedRows(store: Store, item: Id, files: seq<int>)
    requires Valid(store)
    ensures var wanted, have := Normalised(files), Linked(store, item);
            RowsAfter(store, Replaced(store, item, files), item, have - Files(wanted), Missing(wanted, have))
  {
    var wanted, have := Normalised(files), Linked(store, item);
    DroppedThenAdded(store, item, have - Files(wanted), Missing(wanted, have));
  }

  lemma DroppedThenAdded(store: Store, item: Id, gone: set<int>, missing: seq<int>)
    requires Valid(store)
    ensures RowsAfter(store, AddLinks(DropLinks(store, item, gone), item, missing), item, gone, missing)
  {
  }

  lemma {:induction false} MissingOnce(files: seq<int>, have: set<int>)
    requires forall i, j | 0 <= i < j < |files| :: files[i] != files[j]
    ensures forall i, j | 0 <= i < j < |Missing(files, have)| :: Missing(files, have)[i] != Missing(files, have)[j]
  {
    if files != [] {
      var n := |files| - 1;
      MissingOnce(files[..n], have);
      assert forall i | 0 <= i < n :: files[..n][i] == files[i];
      assert files[n] !in Missing(files[..n], have);
    }
  }

  /** The item is linked afterwards to exactly the non-zero files asked for; all other rows stay. */
  lemma ReplacedFiles(store: Store, item: Id, files: seq<int>)
    requires Valid(store)
    ensures var after := Replaced(store, item, files);
            && Valid(after) && after.items == store.items
            && Linked(after, item) == Files(Normalised(files))
            && (forall l | l in store.links && store.links[l].item != item :: l in after.links && after.links[l] == store.links[l])
            && (forall l | l in after.links && after.links[l].item != item :: l in store.links && store.links[l] == after.links[l])
  {
    var wanted, have := Normalised(files), Linked(store, item);
    var missing, after := Missing(wanted, have), Replaced(store, item, files);
    ReplacedRows(store, item, files);
    forall f ensures f in Linked(after, item) <==> f in wanted {
      if f in wanted { WantedIsLinked(store, after, item, wanted, have, f); }
    }
  }

  lemma WantedIsLinked(store: Store, after: Store, item: Id, wanted: seq<int>, have: set<int>, f: int)
    requires have == Linked(store, item) && RowsAfter(store, after, item, have - Files(wanted), Missing(wanted, have))
    requires Valid(store) && f in wanted && f != 0
    ensures f in Linked(after, item)
  {
    var missing := Missing(wanted, have);
    if f in have {
      var l :| l in store.links && store.links[l].item == item && store.links[l].file == f;
      assert l in after.links && after.links[l] == store.links[l];
    } else {
      var i :| 0 <= i < |missing| && missing[i] == f;
      assert store.nextLink + i in after.links;
      assert after.links[store.nextLink + i] == Link(item, missing[i]);
    }
  }

  /** A file other than 0 is linked to the item afterwards exactly when asked for; a link without a file stays as it was. */
  lemma LinkedAsAsked(store: Store, item: Id, files: seq<int>, file: int)
    requires Valid(store)
    ensures var after := Replaced(store, item, files);
            (exists l :: l in after.links && after.links[l] == Link(item, file)) <==>
              if file != 0 then file in files else exists l :: l in store.links && store.links[l] == Link(item, file)
  {
    var after := Replaced(store, item, files);
    ReplacedFiles(store, item, files);
    LinkedExactly(after, item, file);
    LinkedExactly(store, item, file);
    if file == 0 {
      NoFileStays(store, item, files);
    } else {
      assert file in Linked(after, item) <==> file in Normalised(files);
    }
  }

  lemma NoFileStays(store: Store, item: Id, files: seq<int>)
    requires Valid(store)
    ensures 0 in FilesOf(Replaced(store, item, files), item) <==> 0 in FilesOf(store, item)
  {
    var wanted, have := Normalised(files), Linked(store, item);
    var missing, after := Missing(wanted, have), Replaced(store, item, files);
    ReplacedRows(store, item, files);
    assert forall i | 0 <= i < |missing| :: missing[i] in missing;
    if 0 in FilesOf(after, item) {
      var l :| l in after.links && after.links[l].item == item && after.links[l].file == 0;
    }
    if 0 in FilesOf(store, item) {
      var l :| l in store.links && store.links[l].item == item && store.links[l].file == 0;
      assert l in after.links && after.links[l] == store.links[l];
    }
  }

  /** Replacing keeps links single. */
  lemma ReplacingKeepsOneLinkEach(store: Store, item: Id, files: seq<int>)
    requires Valid(store) && OneLinkEach(store)
    ensures OneLinkEach(Replaced(store, item, files))
  {
    var wanted, have := Normalised(files), Linked(store, item);
    var missing, after := Missing(wanted, have), Replaced(store, item, files);
    ReplacedRows(store, item, files);
    MissingOnce(wanted, have);
    assert forall k | k in store.links && store.links[k].item == item :: store.links[k].file in FilesOf(store, item);
    forall l, m | l in after.links && m in after.links && l < m ensures after.links[l] != after.links[m] {
      if m >= store.nextLink {
        var f := missing[m - store.nextLink];
        assert f in missing && f in wanted && f !in FilesOf(store, item);
      }
    }
  }

  /** Asking for the same files again, in any order and with any repetitions, changes nothing. */
  lemma ReplacingAgain(store: Store, item: Id, files: seq<int>, again: seq<int>)
    requires Valid(store) && Files(Normalised(again)) == Files(Normalised(files))
    ensures var once := Replaced(store, item, files); Replaced(once, item, again) == once
  {
    ReplacedFiles(store, item, files);
    NothingToReplace(Replaced(store, item, files), item, again);
  }

  lemma NothingToReplace(once: Store, item: Id, again: seq<int>)
    requires Linked(once, item) == Files(Normalised(again))
    ensures Replaced(once, item, again) == once
  {
    var wanted, have := Normalised(again), Linked(once, item);
    forall i | 0 <= i < |wanted| ensures wanted[i] in have {
      assert wanted[i] in Files(wanted);
    }
    NothingMissing(wanted, have);
    assert have - Files(wanted) == {};
    assert DropLinks(once, item, {}).links == once.links;
  }

  // ---------- the update of a whole record ----------

  /** Two rows link the item to the file. */
  ghost predicate Doubled(store: Store, item: Id, file: int) {
    exists l, m :: l in store.links && m in store.links && l != m && store.links[l] == Link(item, file) == store.links[m]
  }

  /** The list names the file at two places. */
  ghost predicate Repeats(files: seq<int>, file: int) {
    exists i, j :: 0 <= i < j < |files| && files[i] == file == files[j]
  }

  lemma OneLinkExactly(store: Store)
    ensures OneLinkEach(store) <==> forall item, file :: !Doubled(store, item, file)
  {
    if forall item, file :: !Doubled(store, item, file) {
      forall l, m | l in store.links && m in store.links && l != m ensures store.links[l] != store.links[m] {
        assert !Doubled(store, store.links[l].item, store.links[l].file);
      }
    }
  }

  lemma RepeatsOneMore(files: seq<int>, n: nat, file: int)
    requires |files| == n + 1
    ensures Repeats(files, file) <==> Repeats(files[..n], file) || (files[n] == file && file in files[..n])
  {
    if Repeats(files[..n], file) {
      var i, j :| 0 <= i < j < n && files[..n][i] == file == files[..n][j];
      assert files[i] == file == files[j];
    }
    if Repeats(files, file) {
      var i, j :| 0 <= i < j < |files| && files[i] == file == files[j];
      assert files[..n][i] == file;
      assert j < n ==> files[..n][j] == file;
    }
  }

  /** What is missing repeats just what the list repeats. */
  lemma {:induction false} MissingRepeats(files: seq<int>, have: set<int>, file: int)
    requires file !in have
    ensures Repeats(Missing(files, have), file) <==> Repeats(files, file)
  {
    if files != [] {
      var n := |files| - 1;
      var before := Missing(files[..n], have);
      MissingRepeats(files[..n], have, file);
      RepeatsOneMore(files, n, file);
      if files[n] !in have {
        assert (before + [files[n]])[..|before|] == before;
        RepeatsOneMore(before + [files[n]], |before|, file);
      }
    }
  }

  /** Rows of the item and file afterwards: the old ones if recognised and asked for, and one for each new mention. */
  lemma SyncedRows(form: Form, store: Store, item: Id, files: seq<int>)
    requires Valid(store)
    ensures var have := FilesOf(store, item);
            RowsAfter(store, SyncFiles(form, store, item, files), item, Gone(form, files, have), Missing(files, Met(form, have)))
  {
    var have := FilesOf(store, item);
    DroppedThenAdded(store, item, Gone(form, files, have), Missing(files, Met(form, have)));
  }

  lemma OldRowsDouble(store: Store, after: Store, item: Id, gone: set<int>, missing: seq<int>, file: int)
    requires Valid(store) && RowsAfter(store, after, item, gone, missing) && file !in missing
    ensures Doubled(after, item, file) <==> Doubled(store, item, file) && file !in gone
  {
    forall l | l in after.links && l >= store.nextLink ensures after.links[l] != Link(item, file) {
      assert missing[l - store.nextLink] in missing;
    }
    if Doubled(store, item, file) && file !in gone {
      var l, m :| l in store.links && m in store.links && l != m && store.links[l] == Link(item, file) == store.links[m];
      assert l in after.links && m in after.links;
    }
  }

  lemma NewRowsDouble(store: Store, after: Store, item: Id, gone: set<int>, missing: seq<int>, file: int)
    requires Valid(store) && RowsAfter(store, after, item, gone, missing)
    requires file in gone || file !in FilesOf(store, item)
    ensures Doubled(after, item, file) <==> Repeats(missing, file)
  {
    forall l | l in store.links && store.links[l].item == item ensures store.links[l].file in FilesOf(store, item) { }
    assert forall l | l in after.links && l < store.nextLink :: after.links[l] != Link(item, file);
    if Doubled(after, item, file) {
      var l, m :| l in after.links && m in after.links && l < m && after.links[l] == Link(item, file) == after.links[m];
      assert missing[l - store.nextLink] == file == missing[m - store.nextLink];
    }
    if Repeats(missing, file) {
      var i, j :| 0 <= i < j < |missing| && missing[i] == file == missing[j];
      var l, m := store.nextLink + i, store.nextLink + j;
      assert l in after.links && m in after.links && after.links[l] == Link(item, file) == after.links[m];
    }
  }

  /** When a file is linked twice after its item has been synchronised. */
  lemma SyncDoubles(form: Form, store: Store, item: Id, files: seq<int>, file: int)
    requires Valid(store)
    ensures Doubled(SyncFiles(form, store, item, files), item, file) <==>
              if file in Met(form, FilesOf(store, item)) then Doubled(store, item, file) && file in files
              else Repeats(files, file)
  {
    var have := FilesOf(store, item);
    var missing := Missing(files, Met(form, have));
    SyncedRows(form, store, item, files);
    if file in Met(form, have) {
      OldRowsDouble(store, SyncFiles(form, store, item, files), item, Gone(form, files, have), missing, file);
    } else {
      NewRowsDouble(store, SyncFiles(form, store, item, files), item, Gone(form, files, have), missing, file);
      MissingRepeats(files, Met(form, have), file);
    }
  }

  lemma SyncDoublesElsewhere(form: Form, store: Store, item: Id, files: seq<int>, other: Id, file: int)
    requires Valid(store) && other != item
    ensures Doubled(SyncFiles(form, store, item, files), other, file) <==> Doubled(store, other, file)
  {
    SyncFilesSets(form, store, item, files);
  }

  /**
   An update of one item in the record keeps links single exactly when the list repeats only files that
   are recognised as linked already: none, where identifiers are read as text.
   */
  lemma SyncKeepsOneLinkEachExactlyWhen(form: Form, store: Store, item: Id, files: seq<int>)
    requires Valid(store) && OneLinkEach(store)
    ensures OneLinkEach(SyncFiles(form, store, item, files)) <==>
              forall i, j | 0 <= i < j < |files| && files[i] == files[j] :: files[i] in Met(form, FilesOf(store, item))
  {
    var after := SyncFiles(form, store, item, files);
    OneLinkExactly(store);
    OneLinkExactly(after);
    forall other, file ensures Doubled(after, other, file) <==>
                               other == item && Repeats(files, file) && file !in Met(form, FilesOf(store, item)) {
      if other == item {
        SyncDoubles(form, store, item, files, file);
      } else {
        SyncDoublesElsewhere(form, store, item, files, other, file);
      }
    }
    forall i, j | 0 <= i < j < |files| && files[i] == files[j] ensures Repeats(files, files[i]) { }
    if OneLinkEach(after) {
      forall i, j | 0 <= i < j < |files| && files[i] == files[j] ensures files[i] in Met(form, FilesOf(store, item)) {
        assert !Doubled(after, item, files[i]);
      }
    }
  }

  // ---------- a payload that names an item more than once ----------

  /** The files an item has when entry n comes to it. */
  ghost function FilesBefore(store: Store, payload: seq<Entry>, targets: seq<Id>, n: nat, item: Id): set<int>
    requires n <= |payload| == |targets|
  {
    if n == 0 then FilesOf(store, item)
    else if targets[n - 1] == item then Files(payload[n - 1].files)
    else FilesBefore(store, payload, targets, n - 1, item)
  }

  /** Entry m links the file twice, and no later entry for the item makes up for it. */
  ghost predicate LinksTwice(form: Form, store: Store, payload: seq<Entry>, targets: seq<Id>, n: nat, m: nat, file: int)
    requires m < n <= |payload| == |targets|
  {
    && Repeats(payload[m].files, file)
    && file !in Met(form, FilesBefore(store, payload, targets, m, targets[m]))
    && forall k | m < k < n && targets[k] == targets[m] :: file in Met(form, Files(payload[k].files))
  }

  ghost predicate SomeLinksTwice(form: Form, store: Store, payload: seq<Entry>, targets: seq<Id>, n: nat, item: Id, file: int)
    requires n <= |payload| == |targets|
  {
    exists m :: 0 <= m < n && targets[m] == item && LinksTwice(form, store, payload, targets, n, m, file)
  }

  lemma TwiceElsewhere(form: Form, store: Store, payload: seq<Entry>, targets: seq<Id>, n: nat, item: Id, file: int)
    requires n < |payload| == |targets| && targets[n] != item
    ensures SomeLinksTwice(form, store, payload, targets, n + 1, item, file) <==> SomeLinksTwice(form, store, payload, targets, n, item, file)
  {
    if SomeLinksTwice(form, store, payload, targets, n, item, file) {
      var m :| 0 <= m < n && targets[m] == item && LinksTwice(form, store, payload, targets, n, m, file);
      assert LinksTwice(form, store, payload, targets, n + 1, m, file);
    }
    if SomeLinksTwice(form, store, payload, targets, n + 1, item, file) {
      var m :| 0 <= m < n + 1 && targets[m] == item && LinksTwice(form, store, payload, targets, n + 1, m, file);
      assert LinksTwice(form, store, payload, targets, n, m, file);
    }
  }

  /** What entry n does to the files linked twice. */
  lemma TwiceHere(form: Form, store: Store, payload: seq<Entry>, targets: seq<Id>, n: nat, file: int)
    requires n < |payload| == |targets|
    ensures SomeLinksTwice(form, store, payload, targets, n + 1, targets[n], file) <==>
              || (SomeLinksTwice(form, store, payload, targets, n, targets[n], file) && file in Met(form, Files(payload[n].files)))
              || (Repeats(payload[n].files, file) && file !in Met(form, FilesBefore(store, payload, targets, n, targets[n])))
  {
    var item := targets[n];
    if SomeLinksTwice(form, store, payload, targets, n, item, file) && file in Met(form, Files(payload[n].files)) {
      var m :| 0 <= m < n && targets[m] == item && LinksTwice(form, store, payload, targets, n, m, file);
      TwiceGoesOn(form, store, payload, targets, n, m, file);
    }
    if Repeats(payload[n].files, file) && file !in Met(form, FilesBefore(store, payload, targets, n, item)) {
      assert LinksTwice(form, store, payload, targets, n + 1, n, file);
    }
    if SomeLinksTwice(form, store, payload, targets, n + 1, item, file) {
      var m :| 0 <= m < n + 1 && targets[m] == item && LinksTwice(form, store, payload, targets, n + 1, m, file);
      if m < n {
        TwiceGoesOn(form, store, payload, targets, n, m, file);
      }
    }
  }

  lemma TwiceGoesOn(form: Form, store: Store, payload: seq<Entry>, targets: seq<Id>, n: nat, m: nat, file: int)
    requires m < n < |payload| == |targets| && targets[m] == targets[n]
    ensures LinksTwice(form, store, payload, targets, n + 1, m, file) <==>
              LinksTwice(form, store, payload, targets, n, m, file) && file in Met(form, Files(payload[n].files))
  {
  }

  /** The fold keeps track of the files of each item and of those linked twice. */
  ghost predicate Tracked(form: Form, base: Store, mid: Store, payload: seq<Entry>, targets: seq<Id>, n: nat)
    requires n <= |payload| == |targets|
  {
    && Valid(mid)
    && (forall item :: FilesOf(mid, item) == FilesBefore(base, payload, targets, n, item))
    && (forall item, file :: Doubled(mid, item, file) <==> SomeLinksTwice(form, base, payload, targets, n, item, file))
  }

  lemma SameLinksSameFiles(a: Store, b: Store, item: Id)
    requires a.links == b.links
    ensures FilesOf(a, item) == FilesOf(b, item)
  {
  }

  lemma TrackedStep(form: Form, base: Store, mid: Store, record: Id, payload: seq<Entry>, targets: seq<Id>, n: nat)
    requires n < |payload| == |targets| && Tracked(form, base, mid, payload, targets, n)
    ensures Tracked(form, base, SyncFiles(form, mid.(items := mid.items[targets[n] := ItemFrom(record, payload[n])]), targets[n], payload[n].files),
                    payload, targets, n + 1)
  {
    var written := mid.(items := mid.items[targets[n] := ItemFrom(record, payload[n])]);
    var after := SyncFiles(form, written, targets[n], payload[n].files);
    SyncFilesSets(form, written, targets[n], payload[n].files);
    forall item ensures FilesOf(after, item) == FilesBefore(base, payload, targets, n + 1, item) {
      SameLinksSameFiles(mid, written, item);
      if item != targets[n] {
        SyncFilesElsewhere(form, written, targets[n], payload[n].files, item);
      }
    }
    forall item, file ensures Doubled(after, item, file) <==> SomeLinksTwice(form, base, payload, targets, n + 1, item, file) {
      TrackedDoubles(form, base, mid, written, payload, targets, n, item, file);
    }
  }

  lemma TrackedDoubles(form: Form, base: Store, mid: Store, written: Store, payload: seq<Entry>, targets: seq<Id>, n: nat, item: Id, file: int)
    requires n < |payload| == |targets| && Tracked(form, base, mid, payload, targets, n)
    requires Valid(written) && written.links == mid.links
    ensures Doubled(SyncFiles(form, written, targets[n], payload[n].files), item, file) <==>
              SomeLinksTwice(form, base, payload, targets, n + 1, item, file)
  {
    SameLinksSameFiles(mid, written, item);
    assert Doubled(written, item, file) <==> Doubled(mid, item, file);
    if item != targets[n] {
      SyncDoublesElsewhere(form, written, targets[n], payload[n].files, item, file);
      TwiceElsewhere(form, base, payload, targets, n, item, file);
    } else {
      SyncDoubles(form, written, item, payload[n].files, file);
      TwiceHere(form, base, payload, targets, n, file);
      DoubledIsLinked(mid, item, file);
    }
  }

  lemma DoubledIsLinked(store: Store, item: Id, file: int)
    ensures Doubled(store, item, file) ==> file in FilesOf(store, item)
  {
  }

  lemma {:induction false} TrackedFold(form: Form, store: Store, record: Id, payload: seq<Entry>, newIds: seq<Id>, n: nat)
    requires Valid(store) && OneLinkEach(store) && Fresh(store, payload, newIds) && n <= |payload|
    ensures Tracked(form, Base(store, record, payload), ApplyEntries(form, Base(store, record, payload), record, payload[..n], newIds[..n]),
                    payload, Targets(store, record, payload, newIds), n)
  {
    var base, targets := Base(store, record, payload), Targets(store, record, payload, newIds);
    if n == 0 {
      OneLinkExactly(base);
    } else {
      var mid := ApplyEntries(form, base, record, payload[..n - 1], newIds[..n - 1]);
      TrackedFold(form, store, record, payload, newIds, n - 1);
      ApplyNext(form, base, record, payload, newIds, n - 1);
      FoldInvariant(form, store, record, payload, newIds, n - 1);
      MatchingIsStable(store, record, payload, newIds, mid, n - 1);
      TrackedStep(form, base, mid, record, payload, targets, n - 1);
    }
  }

  /** The items a payload writes keep their files when the others are dropped. */
  lemma {:induction false} SameFilesBefore(store: Store, record: Id, payload: seq<Entry>, newIds: seq<Id>, n: nat, m: nat)
    requires Fresh(store, payload, newIds) && m < |payload| && n <= |payload|
    ensures var targets := Targets(store, record, payload, newIds);
            FilesBefore(Base(store, record, payload), payload, targets, n, targets[m]) == FilesBefore(store, payload, targets, n, targets[m])
  {
    if n > 0 {
      SameFilesBefore(store, record, payload, newIds, n - 1, m);
    } else {
      assert payload[m] in payload;
      KeptItemFiles(store, RecordItems(store, record) - PayloadIds(payload), Targets(store, record, payload, newIds)[m]);
    }
  }

  lemma KeptItemFiles(store: Store, gone: set<Id>, item: Id)
    requires item !in gone
    ensures FilesOf(DropItems(store, gone), item) == FilesOf(store, item)
  {
    var after := DropItems(store, gone);
    forall f | f in FilesOf(store, item) ensures f in FilesOf(after, item) {
      var l :| l in store.links && store.links[l].item == item && store.links[l].file == f;
      assert l in after.links;
    }
  }

  /**
   A record update keeps links single exactly when no entry repeats a file that is not recognised as
   linked to its item by then, unless a later entry for the item drops that file again. Read as numbers
   an identifier is recognised if the item, or the entry before for the same item, has it; as text never.
   */
  lemma UpdateKeepsOneLinkEachExactlyWhen(form: Form, store: Store, record: Id, payload: seq<Entry>, newIds: seq<Id>)
    requires Valid(store) && OneLinkEach(store) && Fresh(store, payload, newIds)
    ensures OneLinkEach(ApplyPayload(form, store, record, payload, newIds)) <==>
              forall m, file | 0 <= m < |payload| ::
                !LinksTwice(form, store, payload, Targets(store, record, payload, newIds), |payload|, m, file)
  {
    var n, base, targets := |payload|, Base(store, record, payload), Targets(store, record, payload, newIds);
    var after := ApplyPayload(form, store, record, payload, newIds);
    assert payload[..n] == payload && newIds[..n] == newIds;
    TrackedFold(form, store, record, payload, newIds, n);
    OneLinkExactly(after);
    forall m, file | 0 <= m < n
      ensures LinksTwice(form, base, payload, targets, n, m, file) <==> LinksTwice(form, store, payload, targets, n, m, file)
    {
      SameFilesBefore(store, record, payload, newIds, m, m);
    }
    if OneLinkEach(after) {
      forall m, file | 0 <= m < n ensures !LinksTwice(form, store, payload, targets, n, m, file) {
        assert !Doubled(after, targets[m], file);
      }
    }
  }

  /** A file new to the item and named twice is linked twice, however identifiers are read. */
  lemma NewFileLinkedTwice(form: Form, store: Store, item: Id, file: int)
    requires Valid(store) && OneLinkEach(store) && file !in FilesOf(store, item)
    ensures !OneLinkEach(SyncFiles(form, store, item, [file, file]))
  {
    SyncKeepsOneLinkEachExactlyWhen(form, store, item, [file, file]);
    assert [file, file][0] == [file, file][1];
  }

  class ItemFileService {
    var store: Store

    constructor (store: Store)
      requires Valid(store)
      ensures this.store == store
    {
      this.store := store;
    }

    method UpdateItemFiles(item: Id, files: seq<int>) returns (found: bool)
      requires Valid(store)
      modifies this
      ensures Valid(store)
      ensures found <==> item in old(store).items
      ensures store == if found then Replaced(old(store), item, files) else old(store)
    {
      if item !in store.items {
        return false;
      }
      ReplacedFiles(store, item, files);
      var newFileIds := Normalised(files);
      var dbFileIds := Linked(store, item);
      var missing := Missing(newFileIds, dbFileIds);
      store := DropLinks(store, item, dbFileIds - Files(newFileIds));
      store := AddLinks(store, item, missing);
      found := true;
    }
  }
}
