/**
 Recipients of an announcement and the synchronisation of their read rows
 (backend_nest/src/announcements/announcements.service.ts).
 */
module Recipients {
  import opened Prelude
  import opened Uniques

  datatype Kind = Everyone | Department | Role | OneUser | OtherKind

  datatype Target = Target(kind: Kind, id: Option<string>)

  datatype User = User(id: string, position: Option<string>, parent: Option<string>)

  datatype Read = Read(ann: string, user: string, readAt: Option<int>, confirmedAt: Option<int>)

  // ---------- who receives ----------

  function Text(s: Option<string>): string {
    if s.Some? then s.value else ""
  }

  /** Non-empty identifiers of the targets of one kind. */
  function TargetIds(targets: seq<Target>, kind: Kind): seq<string> {
    if targets == [] then []
    else (if targets[0].kind == kind && Text(targets[0].id) != "" then [targets[0].id.value] else []) + TargetIds(targets[1..], kind)
  }

  function AllIds(users: seq<User>): seq<string> {
    if users == [] then [] else (if users[0].id != "" then [users[0].id] else []) + AllIds(users[1..])
  }

  function IdsInDepartments(users: seq<User>, departments: seq<string>): seq<string> {
    if users == [] then []
    else (if users[0].parent.Some? && users[0].parent.value in departments && users[0].id != "" then [users[0].id] else [])
         + IdsInDepartments(users[1..], departments)
  }

  function IdsInRoles(users: seq<User>, roles: seq<string>): seq<string> {
    if users == [] then []
    else (if Text(users[0].position) in roles && users[0].id != "" then [users[0].id] else []) + IdsInRoles(users[1..], roles)
  }

  function ResolveRecipientUserIds(targets: seq<Target>, users: seq<User>): seq<string> {
    if targets == [] || exists t :: t in targets && t.kind == Everyone then FirstAppearances(AllIds(users))
    else FirstAppearances(TargetIds(targets, OneUser)
                          + IdsInDepartments(users, TargetIds(targets, Department))
                          + IdsInRoles(users, TargetIds(targets, Role)))
  }

  /** One target reaches an identifier: directly, through the user's department, or through the position. */
  ghost predicate Reaches(t: Target, users: seq<User>, id: string) {
    t.id.Some? && t.id.value != "" &&
    match t.kind
    case OneUser => id == t.id.value
    case Department => exists u :: u in users && u.id == id && u.parent == t.id
    case Role => exists u :: u in users && u.id == id && u.position == t.id
    case _ => false
  }

  ghost predicate IsRecipient(targets: seq<Target>, users: seq<User>, id: string) {
    id != "" &&
    if targets == [] || exists t :: t in targets && t.kind == Everyone then exists u :: u in users && u.id == id
    else exists t :: t in targets && Reaches(t, users, id)
  }

  lemma {:induction false} AllIdsHold(users: seq<User>, id: string)
    ensures id in AllIds(users) <==> id != "" && exists u :: u in users && u.id == id
  {
    if users != [] {
      AllIdsHold(users[1..], id);
      assert users == [users[0]] + users[1..];
    }
  }

  lemma {:induction false} IdsInDepartmentsHold(users: seq<User>, departments: seq<string>, id: string)
    ensures id in IdsInDepartments(users, departments) <==>
              id != "" && exists u :: u in users && u.id == id && u.parent.Some? && u.parent.value in departments
  {
    if users != [] {
      IdsInDepartmentsHold(users[1..], departments, id);
      assert users == [users[0]] + users[1..];
    }
  }

  lemma {:induction false} IdsInRolesHold(users: seq<User>, roles: seq<string>, id: string)
    ensures id in IdsInRoles(users, roles) <==> id != "" && exists u :: u in users && u.id == id && Text(u.position) in roles
  {
    if users != [] {
      IdsInRolesHold(users[1..], roles, id);
      assert users == [users[0]] + users[1..];
    }
  }

  /** The resolved list names every recipient once and nobody else. */
  lemma ResolvedExactly(targets: seq<Target>, users: seq<User>, id: string)
    ensures Distinct(ResolveRecipientUserIds(targets, users))
    ensures id in ResolveRecipientUserIds(targets, users) <==> IsRecipient(targets, users, id)
  {
    if targets == [] || exists t :: t in targets && t.kind == Everyone {
      FirstAppearancesInOrder(AllIds(users));
      AllIdsHold(users, id);
    } else {
      FirstAppearancesInOrder(Reached(targets, users));
      ReachedHold(targets, users, id);
    }
  }

  /** The identifiers of all targets, repetitions included. */
  function Reached(targets: seq<Target>, users: seq<User>): seq<string> {
    TargetIds(targets, OneUser)
    + IdsInDepartments(users, TargetIds(targets, Department))
    + IdsInRoles(users, TargetIds(targets, Role))
  }

  lemma ReachedHold(targets: seq<Target>, users: seq<User>, id: string)
    requires forall t | t in targets :: t.kind != Everyone
    ensures id in Reached(targets, users) <==> id != "" && exists t :: t in targets && Reaches(t, users, id)
  {
    IdsInDepartmentsHold(users, TargetIds(targets, Department), id);
    IdsInRolesHold(users, TargetIds(targets, Role), id);
    ReachedDirectly(targets, users, id);
    ReachedByDepartment(targets, users, id);
    ReachedByRole(targets, users, id);
    if t :| t in targets && Reaches(t, users, id) {
      assert t.kind in {OneUser, Department, Role};
    }
  }

  lemma ReachedDirectly(targets: seq<Target>, users: seq<User>, id: string)
    ensures id in TargetIds(targets, OneUser) <==> id != "" && exists t :: t in targets && t.kind == OneUser && Reaches(t, users, id)
  {
  }

  lemma ReachedByDepartment(targets: seq<Target>, users: seq<User>, id: string)
    ensures (exists u :: u in users && u.id == id && u.parent.Some? && u.parent.value in TargetIds(targets, Department)) <==>
              exists t :: t in targets && t.kind == Department && Reaches(t, users, id)
  {
  }

  lemma ReachedByRole(targets: seq<Target>, users: seq<User>, id: string)
    ensures (exists u :: u in users && u.id == id && Text(u.position) in TargetIds(targets, Role)) <==>
              exists t :: t in targets && t.kind == Role && Reaches(t, users, id)
  {
  }

  // ---------- chunks ----------

  function Chunks<T>(items: seq<T>, size: int): seq<seq<T>>
    decreases |items|
  {
    if items == [] || size <= 0 then []
    else if |items| <= size then [items]
    else [items[..size]] + Chunks(items[size..], size)
  }

  function Flatten<T>(chunks: seq<seq<T>>): seq<T> {
    if chunks == [] then [] else chunks[0] + Flatten(chunks[1..])
  }

  /** Chunks are non-empty, at most the size, full but for the last, and concatenate to the items. */
  lemma {:induction false} ChunksCover<T>(items: seq<T>, size: int)
    requires size > 0
    ensures Flatten(Chunks(items, size)) == items
    ensures forall i | 0 <= i < |Chunks(items, size)| :: 1 <= |Chunks(items, size)[i]| <= size
    ensures forall i | 0 <= i < |Chunks(items, size)| - 1 :: |Chunks(items, size)[i]| == size
    decreases |items|
  {
    if |items| > size {
      ChunksCover(items[size..], size);
      assert Chunks(items, size)[1..] == Chunks(items[size..], size);
    }
  }

  /** The chunks of the items from a position on. */
  function ChunksFrom<T>(items: seq<T>, size: int, i: nat): seq<seq<T>> {
    if i < |items| then Chunks(items[i..], size) else []
  }

  lemma NextChunk<T>(items: seq<T>, size: int, i: nat, end: nat, done: seq<seq<T>>)
    requires size > 0 && i < |items| && end == if i + size < |items| then i + size else |items|
    ensures done + ChunksFrom(items, size, i) == done + [items[i..end]] + ChunksFrom(items, size, i + size)
  {
    assert items[i..][..end - i] == items[i..end];
    if end < |items| {
      assert items[i..][size..] == items[end..];
    } else {
      assert items[i..end] == items[i..];
    }
    assert ChunksFrom(items, size, i) == [items[i..end]] + ChunksFrom(items, size, i + size);
  }

  lemma AllChunks<T>(items: seq<T>, size: int)
    requires |items| > 0 && size > 0
    ensures ChunksFrom(items, size, 0) == Chunks(items, size)
  {
    assert items[0..] == items;
  }

  method ChunkArray<T>(items: seq<T>, size: int) returns (chunks: seq<seq<T>>)
    ensures chunks == Chunks(items, size)
    ensures items == [] || size <= 0 ==> chunks == []
  {
    chunks := [];
    if |items| == 0 || size <= 0 {
      return;
    }
    var i := 0;
    AllChunks(items, size);
    while i < |items|
      invariant 0 <= i && chunks + ChunksFrom(items, size, i) == ChunksFrom(items, size, 0)
      decreases |items| - i
    {
      var end := if i + size < |items| then i + size else |items|;
      NextChunk(items, size, i, end, chunks);
      chunks := chunks + [items[i..end]];
      i := i + size;
    }
  }

  // ---------- read rows ----------

  predicate HasRead(rows: seq<Read>, ann: string, user: string) {
    exists i :: 0 <= i < |rows| && rows[i].ann == ann && rows[i].user == user
  }

  /** At most one row for an announcement and a user; the database does not demand it. */
  ghost predicate OneRowEach(rows: seq<Read>) {
    forall i, j | 0 <= i < j < |rows| :: rows[i].ann != rows[j].ann || rows[i].user != rows[j].user
  }

  /** Recipients without a row, in order. */
  function Missing(rows: seq<Read>, ann: string, recipients: seq<string>): seq<string> {
    if recipients == [] then []
    else (if HasRead(rows, ann, recipients[0]) then [] else [recipients[0]]) + Missing(rows, ann, recipients[1..])
  }

  /** Fresh rows, neither read nor confirmed. */
  function NewRows(ann: string, users: seq<string>): (r: seq<Read>)
    ensures |r| == |users|
  {
    seq(|users|, i requires 0 <= i < |users| => Read(ann, users[i], None, None))
  }

  /** Chunk after chunk; a row's user must exist, and a chunk with another identifier is refused whole. */
  function InsertChunks(rows: seq<Read>, ann: string, chunks: seq<seq<string>>, known: set<string>): (seq<Read>, bool)
    decreases |chunks|
  {
    if chunks == [] then (rows, true)
    else if forall id | id in chunks[0] :: id in known then InsertChunks(rows + NewRows(ann, chunks[0]), ann, chunks[1..], known)
    else (rows, false)
  }

  /** Number of identifiers before the first that is no user. */
  function KnownPrefix(ids: seq<string>, known: set<string>): (n: nat)
    ensures n <= |ids| && (forall i | 0 <= i < n :: ids[i] in known) && (n < |ids| ==> ids[n] !in known)
  {
    if ids == [] || ids[0] !in known then 0 else 1 + KnownPrefix(ids[1..], known)
  }

  /** How many rows the insertion in chunks of 300 adds: all, or the full chunks before the first unknown user. */
  function Inserted(missing: seq<string>, known: set<string>): (n: nat)
    ensures n <= |missing| && (n == |missing| <==> KnownPrefix(missing, known) == |missing|)
  {
    var k := KnownPrefix(missing, known);
    if k == |missing| then k else 300 * (k / 300)
  }

  lemma {:induction false} InsertionAdds(rows: seq<Read>, ann: string, missing: seq<string>, known: set<string>)
    ensures InsertChunks(rows, ann, Chunks(missing, 300), known) ==
              (rows + NewRows(ann, missing[..Inserted(missing, known)]), KnownPrefix(missing, known) == |missing|)
    decreases |missing|
  {
    var k := KnownPrefix(missing, known);
    if missing == [] {
      assert rows + NewRows(ann, []) == rows;
    } else if |missing| <= 300 {
      LastChunk(rows, ann, missing, known);
    } else if k < 300 {
      FirstChunkRefused(rows, ann, missing, known);
    } else {
      FirstChunk(rows, ann, missing, known);
      InsertionAdds(rows + NewRows(ann, missing[..300]), ann, missing[300..], known);
      KnownPrefixAfter(missing, 300, known);
      InsertedAfter(missing, known);
      RowsInTwo(rows, ann, missing, Inserted(missing, known));
    }
  }

  lemma InsertedAfter(missing: seq<string>, known: set<string>)
    requires |missing| > 300 && KnownPrefix(missing, known) >= 300
    requires KnownPrefix(missing[300..], known) == KnownPrefix(missing, known) - 300
    ensures Inserted(missing, known) == Inserted(missing[300..], known) + 300
  {
  }

  lemma FirstChunkRefused(rows: seq<Read>, ann: string, missing: seq<string>, known: set<string>)
    requires |missing| > 300 && KnownPrefix(missing, known) < 300
    ensures Inserted(missing, known) == 0
    ensures InsertChunks(rows, ann, Chunks(missing, 300), known) == (rows + NewRows(ann, missing[..0]), false)
  {
    var k := KnownPrefix(missing, known);
    assert missing[..300][k] == missing[k];
    assert rows + NewRows(ann, missing[..0]) == rows;
    assert Chunks(missing, 300)[0] == missing[..300] && missing[k] in missing[..300];
  }

  lemma RowsInTwo(rows: seq<Read>, ann: string, missing: seq<string>, n: nat)
    requires 300 <= n <= |missing|
    ensures rows + NewRows(ann, missing[..300]) + NewRows(ann, missing[300..][..n - 300]) == rows + NewRows(ann, missing[..n])
  {
  }

  lemma LastChunk(rows: seq<Read>, ann: string, missing: seq<string>, known: set<string>)
    requires 0 < |missing| <= 300
    ensures InsertChunks(rows, ann, Chunks(missing, 300), known) ==
              (rows + NewRows(ann, missing[..Inserted(missing, known)]), KnownPrefix(missing, known) == |missing|)
  {
    var k := KnownPrefix(missing, known);
    var chunks := Chunks(missing, 300);
    assert chunks == [missing] && chunks[1..] == [];
    assert missing[..|missing|] == missing;
    if k < |missing| {
      assert missing[k] in missing;
      assert k / 300 == 0 && rows + NewRows(ann, missing[..0]) == rows;
    }
  }

  lemma FirstChunk(rows: seq<Read>, ann: string, missing: seq<string>, known: set<string>)
    requires |missing| > 300 && KnownPrefix(missing, known) >= 300
    ensures InsertChunks(rows, ann, Chunks(missing, 300), known) ==
              InsertChunks(rows + NewRows(ann, missing[..300]), ann, Chunks(missing[300..], 300), known)
  {
  }

  lemma {:induction false} KnownPrefixAfter(ids: seq<string>, n: nat, known: set<string>)
    requires n <= KnownPrefix(ids, known)
    ensures KnownPrefix(ids[n..], known) == KnownPrefix(ids, known) - n
  {
  }

  // ---------- what synchronising achieves ----------

  /** The rows after synchronising a sent announcement, and whether no insertion failed. */
  function Synced(rows: seq<Read>, ann: string, recipients: seq<string>, known: set<string>): (seq<Read>, bool) {
    InsertChunks(rows, ann, Chunks(Missing(rows, ann, recipients), 300), known)
  }

  lemma {:induction false} MissingHolds(rows: seq<Read>, ann: string, recipients: seq<string>)
    ensures forall id :: id in Missing(rows, ann, recipients) <==> id in recipients && !HasRead(rows, ann, id)
    ensures Distinct(recipients) ==> Distinct(Missing(rows, ann, recipients))
  {
    if recipients != [] {
      MissingHolds(rows, ann, recipients[1..]);
      assert recipients == [recipients[0]] + recipients[1..];
      if Distinct(recipients) {
        assert recipients[0] !in recipients[1..];
        assert Distinct(recipients[1..]);
        var rest := Missing(rows, ann, recipients[1..]);
        assert recipients[0] !in rest;
        assert forall i | 0 <= i < |rest| :: rest[i] in rest;
      }
    }
  }

  lemma HasReadAfter(rows: seq<Read>, ann: string, users: seq<string>, a: string, u: string)
    ensures HasRead(rows + NewRows(ann, users), a, u) <==> HasRead(rows, a, u) || (a == ann && u in users)
  {
    var after := rows + NewRows(ann, users);
    assert forall i | 0 <= i < |rows| :: after[i] == rows[i];
    assert forall i | 0 <= i < |users| :: after[|rows| + i] == Read(ann, users[i], None, None);
    if HasRead(after, a, u) {
      var i :| 0 <= i < |after| && after[i].ann == a && after[i].user == u;
      if i >= |rows| { assert after[i] == Read(ann, users[i - |rows|], None, None); }
    }
  }

  /** A recipient has a row afterwards exactly when it had one or is among the inserted. */
  lemma SyncedRows(rows: seq<Read>, ann: string, recipients: seq<string>, known: set<string>)
    requires Distinct(recipients) && OneRowEach(rows)
    ensures var missing := Missing(rows, ann, recipients);
            var added := missing[..Inserted(missing, known)];
            && Synced(rows, ann, recipients, known) == (rows + NewRows(ann, added), |added| == |missing|)
            && OneRowEach(rows + NewRows(ann, added))
            && (forall a, u :: HasRead(rows + NewRows(ann, added), a, u) <==> HasRead(rows, a, u) || (a == ann && u in added))
  {
    var missing := Missing(rows, ann, recipients);
    var added := missing[..Inserted(missing, known)];
    InsertionAdds(rows, ann, missing, known);
    MissingHolds(rows, ann, recipients);
    forall a, u ensures HasRead(rows + NewRows(ann, added), a, u) <==> HasRead(rows, a, u) || (a == ann && u in added) {
      HasReadAfter(rows, ann, added, a, u);
    }
    AppendKeepsOneRowEach(rows, ann, missing, |added|);
  }

  lemma AppendKeepsOneRowEach(rows: seq<Read>, ann: string, missing: seq<string>, n: nat)
    requires OneRowEach(rows) && Distinct(missing) && n <= |missing|
    requires forall u | u in missing :: !HasRead(rows, ann, u)
    ensures OneRowEach(rows + NewRows(ann, missing[..n]))
  {
    var after := rows + NewRows(ann, missing[..n]);
    forall i, j | 0 <= i < j < |after| ensures after[i].ann != after[j].ann || after[i].user != after[j].user {
      if j >= |rows| {
        assert after[j] == Read(ann, missing[j - |rows|], None, None);
        assert missing[j - |rows|] in missing;
        if i >= |rows| {
          assert after[i] == Read(ann, missing[i - |rows|], None, None);
        } else {
          assert after[i] == rows[i];
        }
      }
    }
  }

  /**
   Every recipient has a row afterwards exactly when each one without a row was a user; the rows there
   before are untouched.
   */
  lemma SyncCoversExactlyWhen(rows: seq<Read>, ann: string, recipients: seq<string>, known: set<string>)
    requires Distinct(recipients) && OneRowEach(rows)
    ensures var after := Synced(rows, ann, recipients, known);
            && rows <= after.0 && OneRowEach(after.0)
            && (after.1 <==> forall u | u in recipients :: HasRead(after.0, ann, u))
            && (after.1 <==> forall u | u in recipients && !HasRead(rows, ann, u) :: u in known)
  {
    var missing := Missing(rows, ann, recipients);
    var n := Inserted(missing, known);
    SyncedRows(rows, ann, recipients, known);
    MissingHolds(rows, ann, recipients);
    var k := KnownPrefix(missing, known);
    if n == |missing| {
      assert missing[..n] == missing;
      assert forall u | u in missing :: exists i :: 0 <= i < |missing| && missing[i] == u;
    } else {
      assert missing[k] in missing;
      assert missing[n] in missing && missing[n] !in missing[..n];
    }
  }

  lemma {:induction false} MissingSame(before: seq<Read>, after: seq<Read>, ann: string, recipients: seq<string>)
    requires forall u | u in recipients :: HasRead(before, ann, u) <==> HasRead(after, ann, u)
    ensures Missing(before, ann, recipients) == Missing(after, ann, recipients)
  {
    if recipients != [] {
      assert recipients[0] in recipients;
      MissingSame(before, after, ann, recipients[1..]);
    }
  }

  lemma {:induction false} MissingAfter(rows: seq<Read>, ann: string, recipients: seq<string>, n: nat)
    requires Distinct(recipients) && n <= |Missing(rows, ann, recipients)|
    ensures var missing := Missing(rows, ann, recipients);
            Missing(rows + NewRows(ann, missing[..n]), ann, recipients) == missing[n..]
  {
    var missing := Missing(rows, ann, recipients);
    var after := rows + NewRows(ann, missing[..n]);
    if n == 0 {
      assert after == rows;
    } else {
      var head, tail := recipients[0], recipients[1..];
      var rest := Missing(rows, ann, tail);
      assert head !in tail && Distinct(tail);
      HasReadAfter(rows, ann, missing[..n], ann, head);
      if HasRead(rows, ann, head) {
        assert missing == rest;
        MissingAfter(rows, ann, tail, n);
      } else {
        MissingAfter(rows, ann, tail, n - 1);
        assert missing[..n] == [head] + rest[..n - 1];
        HeadMakesNoDifference(rows, ann, head, rest[..n - 1], tail);
      }
    }
  }

  lemma HeadMakesNoDifference(rows: seq<Read>, ann: string, head: string, users: seq<string>, tail: seq<string>)
    requires head !in tail
    ensures Missing(rows + NewRows(ann, [head] + users), ann, tail) == Missing(rows + NewRows(ann, users), ann, tail)
  {
    var with, without := rows + NewRows(ann, [head] + users), rows + NewRows(ann, users);
    forall u | u in tail ensures HasRead(with, ann, u) <==> HasRead(without, ann, u) {
      HasReadAfter(rows, ann, [head] + users, ann, u);
      HasReadAfter(rows, ann, users, ann, u);
    }
    MissingSame(without, with, ann, tail);
  }

  /** Synchronising again adds nothing, whether the first time went through or not. */
  lemma SyncTwice(rows: seq<Read>, ann: string, recipients: seq<string>, known: set<string>)
    requires Distinct(recipients) && OneRowEach(rows)
    ensures var once := Synced(rows, ann, recipients, known); Synced(once.0, ann, recipients, known) == once
  {
    var missing := Missing(rows, ann, recipients);
    var n := Inserted(missing, known);
    var once := rows + NewRows(ann, missing[..n]);
    SyncedRows(rows, ann, recipients, known);
    SyncedRows(once, ann, recipients, known);
    MissingAfter(rows, ann, recipients, n);
    KnownPrefixAfter(missing, n, known);
    assert Inserted(missing[n..], known) == 0;
    assert once + NewRows(ann, missing[n..][..0]) == once;
  }
}
