/**
 Life cycle and read tracking of announcements
 (backend_nest/src/announcements/announcements.service.ts).
 */
module Announcements {
  import opened Prelude
  import opened Uniques
  import opened Recipients

  datatype Status = Draft | Scheduled | Sent | Expired

  datatype Announcement = Announcement(status: Status, scheduledAt: Option<int>, sentAt: Option<int>, targets: seq<Target>)

  datatype Store = Store(anns: map<string, Announcement>, rows: seq<Read>)

  /** The schedule field of an update: not a property of the request, or one that holds a time or nothing. */
  datatype Schedule = NotSent | Given(at: Option<int>)

  datatype Error = NotFound | ForbiddenAccess | InsertFailed

  /** There is no transaction: a failing synchronisation leaves what was saved before. */
  datatype Outcome = Outcome(store: Store, error: Option<Error>)

  // ---------- rows ----------

  /** Index of a user's row of an announcement. */
  function RowOf(rows: seq<Read>, ann: string, user: string): (i: Option<nat>)
    ensures i.Some? <==> HasRead(rows, ann, user)
    ensures i.Some? ==> i.value < |rows| && rows[i.value].ann == ann && rows[i.value].user == user
  {
    if rows == [] then None
    else if rows[0].ann == ann && rows[0].user == user then Some(0)
    else
      var rest := RowOf(rows[1..], ann, user);
      assert HasRead(rows[1..], ann, user) ==> HasRead(rows, ann, user) by {
        assert forall i | 0 <= i < |rows[1..]| :: rows[1..][i] == rows[i + 1];
      }
      assert HasRead(rows, ann, user) ==> HasRead(rows[1..], ann, user) by {
        assert forall i | 0 < i < |rows| :: rows[i] == rows[1..][i - 1];
      }
      if rest.Some? then Some(rest.value + 1) else None
  }

  function Count(rows: seq<Read>, counted: Read -> bool): nat {
    if rows == [] then 0 else (if counted(rows[0]) then 1 else 0) + Count(rows[1..], counted)
  }

  function Without(rows: seq<Read>, ann: string): seq<Read> {
    if rows == [] then [] else (if rows[0].ann == ann then [] else [rows[0]]) + Without(rows[1..], ann)
  }

  // ---------- the calls ----------

  function Known(users: seq<User>): set<string> {
    set u | u in users :: u.id
  }

  /** Adds the missing rows of a sent announcement. */
  function Sync(store: Store, id: string, users: seq<User>): Outcome {
    if id !in store.anns || store.anns[id].status != Sent then Outcome(store, None)
    else
      var synced := Synced(store.rows, id, ResolveRecipientUserIds(store.anns[id].targets, users), Known(users));
      Outcome(store.(rows := synced.0), if synced.1 then None else Some(InsertFailed))
  }

  /** An empty target identifier is stored as none. */
  function Stored(targets: seq<Target>): seq<Target> {
    seq(|targets|, i requires 0 <= i < |targets| => if targets[i].id == Some("") then targets[i].(id := None) else targets[i])
  }

  function NewAnnouncement(scheduledAt: Option<int>, targets: seq<Target>, now: int): Announcement {
    if scheduledAt.Some? then Announcement(Scheduled, scheduledAt, None, Stored(targets))
    else Announcement(Sent, None, Some(now), Stored(targets))
  }

  function Created(store: Store, id: string, scheduledAt: Option<int>, targets: seq<Target>, now: int, users: seq<User>): Outcome {
    Sync(store.(anns := store.anns[id := NewAnnouncement(scheduledAt, targets, now)]), id, users)
  }

  function Patched(a: Announcement, schedule: Schedule, targets: Option<seq<Target>>, now: int): Announcement {
    var b := if targets.Some? then a.(targets := Stored(targets.value)) else a;
    if schedule.NotSent? then b
    else if schedule.at.Some? then b.(status := Scheduled, scheduledAt := schedule.at, sentAt := None)
    else if a.status == Scheduled then b.(status := Sent, scheduledAt := None, sentAt := Some(now))
    else b.(scheduledAt := None)
  }

  function Updated(store: Store, id: string, schedule: Schedule, targets: Option<seq<Target>>, now: int, users: seq<User>): Outcome {
    if id !in store.anns then Outcome(store, Some(NotFound))
    else
      var saved := store.(anns := store.anns[id := Patched(store.anns[id], schedule, targets, now)]);
      if targets.Some? || schedule.Given? then Sync(saved, id, users) else Outcome(saved, None)
  }

  /** Deletion cascades to the rows. */
  function Deleted(store: Store, id: string): Outcome {
    if id !in store.anns then Outcome(store, Some(NotFound))
    else Outcome(Store(store.anns - {id}, Without(store.rows, id)), None)
  }

  function Opened(store: Store, id: string, user: string, isAdmin: bool, now: int): Outcome {
    if id !in store.anns then Outcome(store, Some(NotFound))
    else if isAdmin then Outcome(store, None)
    else
      match RowOf(store.rows, id, user)
      case None => Outcome(store, Some(ForbiddenAccess))
      case Some(i) =>
        if store.rows[i].readAt.Some? then Outcome(store, None)
        else Outcome(store.(rows := store.rows[i := store.rows[i].(readAt := Some(now))]), None)
  }

  function Confirmed(row: Read, now: int): Read {
    row.(readAt := if row.readAt.Some? then row.readAt else Some(now), confirmedAt := Some(now))
  }

  function ConfirmedRead(store: Store, id: string, user: string, now: int): Outcome {
    if id !in store.anns then Outcome(store, Some(NotFound))
    else
      match RowOf(store.rows, id, user)
      case None => Outcome(store, Some(ForbiddenAccess))
      case Some(i) => Outcome(store.(rows := store.rows[i := Confirmed(store.rows[i], now)]), None)
  }

  /** In the user's inbox: a row of a sent announcement. */
  predicate InInbox(anns: map<string, Announcement>, r: Read, user: string) {
    r.user == user && r.ann in anns && anns[r.ann].status == Sent
  }

  predicate Unread(anns: map<string, Announcement>, r: Read, user: string) {
    InInbox(anns, r, user) && r.readAt.None?
  }

  function UnreadBy(anns: map<string, Announcement>, user: string): Read -> bool {
    (r: Read) => Unread(anns, r, user)
  }

  function AllRead(store: Store, user: string, now: int): Store {
    store.(rows := seq(|store.rows|, i requires 0 <= i < |store.rows| =>
      if Unread(store.anns, store.rows[i], user) then store.rows[i].(readAt := Some(now)) else store.rows[i]))
  }

  /** A call with the time of the database and the users it has. */
  datatype Call =
    | Create(id: string, scheduledAt: Option<int>, to: seq<Target>, now: int, users: seq<User>)
    | Update(id: string, schedule: Schedule, targets: Option<seq<Target>>, now: int, users: seq<User>)
    | Delete(id: string)
    | FindOne(id: string, user: string, isAdmin: bool, now: int)
    | ConfirmRead(id: string, user: string, now: int)
    | MarkAllAsRead(user: string, now: int)
    | Resync(id: string, users: seq<User>)

  predicate Allowed(store: Store, call: Call) {
    call.Create? ==> call.id !in store.anns
  }

  function Next(store: Store, call: Call): Outcome {
    match call
    case Create(id, scheduledAt, to, now, users) => Created(store, id, scheduledAt, to, now, users)
    case Update(id, schedule, targets, now, users) => Updated(store, id, schedule, targets, now, users)
    case Delete(id) => Deleted(store, id)
    case FindOne(id, user, isAdmin, now) => Opened(store, id, user, isAdmin, now)
    case ConfirmRead(id, user, now) => ConfirmedRead(store, id, user, now)
    case MarkAllAsRead(user, now) => Outcome(AllRead(store, user, now), None)
    case Resync(id, users) => Sync(store, id, users)
  }

  // ---------- the invariant ----------

  predicate LifeCycle(a: Announcement) {
    && (a.status == Scheduled ==> a.scheduledAt.Some? && a.sentAt.None?)
    && (a.status == Sent ==> a.sentAt.Some? && a.scheduledAt.None?)
  }

  ghost predicate ConfirmedWereRead(rows: seq<Read>) {
    forall i | 0 <= i < |rows| && rows[i].confirmedAt.Some? :: rows[i].readAt.Some?
  }

  ghost predicate RowsHaveAnnouncements(store: Store) {
    forall i | 0 <= i < |store.rows| :: store.rows[i].ann in store.anns
  }

  ghost predicate Consistent(store: Store) {
    && (forall id | id in store.anns :: LifeCycle(store.anns[id]))
    && OneRowEach(store.rows) && ConfirmedWereRead(store.rows) && RowsHaveAnnouncements(store)
  }

  lemma SyncKeeps(store: Store, id: string, users: seq<User>)
    requires Consistent(store)
    ensures Consistent(Sync(store, id, users).store)
    ensures Sync(store, id, users).store.anns == store.anns && store.rows <= Sync(store, id, users).store.rows
  {
    if id in store.anns && store.anns[id].status == Sent {
      var recipients := ResolveRecipientUserIds(store.anns[id].targets, users);
      ResolvedExactly(store.anns[id].targets, users, "");
      SyncedRows(store.rows, id, recipients, Known(users));
      RowsAdded(store, id, Missing(store.rows, id, recipients)[..Inserted(Missing(store.rows, id, recipients), Known(users))]);
    }
  }

  lemma RowsAdded(store: Store, id: string, added: seq<string>)
    requires ConfirmedWereRead(store.rows) && RowsHaveAnnouncements(store) && id in store.anns
    ensures var after := store.rows + NewRows(id, added);
            ConfirmedWereRead(after) && RowsHaveAnnouncements(store.(rows := after))
  {
    var after := store.rows + NewRows(id, added);
    forall i | 0 <= i < |after| ensures after[i].ann in store.anns && (after[i].confirmedAt.Some? ==> after[i].readAt.Some?) {
      assert after[i] == if i < |store.rows| then store.rows[i] else Read(id, added[i - |store.rows|], None, None);
    }
  }

  lemma {:induction false} WithoutHolds(rows: seq<Read>, ann: string)
    ensures forall r :: r in Without(rows, ann) <==> r in rows && r.ann != ann
    ensures OneRowEach(rows) ==> OneRowEach(Without(rows, ann))
  {
    if rows != [] {
      WithoutHolds(rows[1..], ann);
      assert rows == [rows[0]] + rows[1..];
      if OneRowEach(rows) {
        assert OneRowEach(rows[1..]);
        var rest := Without(rows[1..], ann);
        forall i | 0 <= i < |rest| ensures rows[0].ann != rest[i].ann || rows[0].user != rest[i].user {
          assert rest[i] in rest;
          var j :| 0 <= j < |rows[1..]| && rows[1..][j] == rest[i];
          assert rows[j + 1] == rest[i];
        }
      }
    }
  }

  /** Every call, failing ones included, keeps the store consistent. */
  lemma StepKeepsConsistent(store: Store, call: Call)
    requires Consistent(store) && Allowed(store, call)
    ensures Consistent(Next(store, call).store)
  {
    match call
    case Create(id, scheduledAt, to, now, users) =>
      SyncKeeps(store.(anns := store.anns[id := NewAnnouncement(scheduledAt, to, now)]), id, users);
    case Update(id, schedule, targets, now, users) =>
      if id in store.anns {
        SyncKeeps(store.(anns := store.anns[id := Patched(store.anns[id], schedule, targets, now)]), id, users);
      }
    case Delete(id) => DeleteKeeps(store, id);
    case FindOne(id, user, isAdmin, now) => OpeningKeeps(store, id, user, isAdmin, now);
    case ConfirmRead(id, user, now) => ConfirmingKeeps(store, id, user, now);
    case MarkAllAsRead(user, now) =>
    case Resync(id, users) => SyncKeeps(store, id, users);
  }

  lemma OpeningKeeps(store: Store, id: string, user: string, isAdmin: bool, now: int)
    requires Consistent(store)
    ensures Consistent(Opened(store, id, user, isAdmin, now).store)
  {
  }

  lemma ConfirmingKeeps(store: Store, id: string, user: string, now: int)
    requires Consistent(store)
    ensures Consistent(ConfirmedRead(store, id, user, now).store)
  {
  }

  lemma DeleteKeeps(store: Store, id: string)
    requires Consistent(store)
    ensures Consistent(Deleted(store, id).store)
  {
    WithoutHolds(store.rows, id);
    var rest := Without(store.rows, id);
    forall i | 0 <= i < |rest| ensures rest[i].ann in store.anns && rest[i].ann != id && (rest[i].confirmedAt.Some? ==> rest[i].readAt.Some?) {
      assert rest[i] in rest;
    }
  }

  ghost predicate Run(states: seq<Store>, calls: seq<Call>) {
    |states| == |calls| + 1
    && forall i | 0 <= i < |calls| :: Allowed(states[i], calls[i]) && states[i + 1] == Next(states[i], calls[i]).store
  }

  /** In every reachable state the life cycle and the read rows are consistent. */
  lemma {:induction false} RunKeepsConsistent(states: seq<Store>, calls: seq<Call>, n: nat)
    requires Run(states, calls) && n <= |calls| && Consistent(states[0])
    ensures Consistent(states[n])
  {
    if n > 0 {
      RunKeepsConsistent(states, calls, n - 1);
      StepKeepsConsistent(states[n - 1], calls[n - 1]);
    }
  }

  // ---------- read times are written once ----------

  /** A row of this announcement and user, read or confirmed at least as much as r. */
  predicate Carries(rows: seq<Read>, r: Read) {
    exists i :: 0 <= i < |rows| && rows[i].ann == r.ann && rows[i].user == r.user
                && (r.readAt.Some? ==> rows[i].readAt == r.readAt) && (r.confirmedAt.Some? ==> rows[i].confirmedAt.Some?)
  }

  /** No call but the deletion of its announcement takes a row away, resets its read time or its confirmation. */
  lemma StepCarries(store: Store, call: Call, r: Read)
    requires Consistent(store) && Allowed(store, call) && Carries(store.rows, r)
    requires call != Delete(r.ann)
    ensures Carries(Next(store, call).store.rows, r)
  {
    match call
    case Create(id, scheduledAt, to, now, users) =>
      SyncCarries(store.(anns := store.anns[id := NewAnnouncement(scheduledAt, to, now)]), id, users, r);
    case Update(id, schedule, targets, now, users) =>
      if id in store.anns {
        SyncCarries(store.(anns := store.anns[id := Patched(store.anns[id], schedule, targets, now)]), id, users, r);
      }
    case Delete(id) => DeleteCarries(store, id, r);
    case FindOne(id, user, isAdmin, now) => OpeningCarries(store, id, user, isAdmin, now, r);
    case ConfirmRead(id, user, now) => ConfirmingCarries(store, id, user, now, r);
    case MarkAllAsRead(user, now) => CarriesOver(store.rows, AllRead(store, user, now).rows, r);
    case Resync(id, users) => SyncCarries(store, id, users, r);
  }

  lemma OpeningCarries(store: Store, id: string, user: string, isAdmin: bool, now: int, r: Read)
    requires Carries(store.rows, r)
    ensures Carries(Opened(store, id, user, isAdmin, now).store.rows, r)
  {
    CarriesOver(store.rows, Opened(store, id, user, isAdmin, now).store.rows, r);
  }

  lemma ConfirmingCarries(store: Store, id: string, user: string, now: int, r: Read)
    requires Carries(store.rows, r)
    ensures Carries(ConfirmedRead(store, id, user, now).store.rows, r)
  {
    CarriesOver(store.rows, ConfirmedRead(store, id, user, now).store.rows, r);
  }

  lemma SyncCarries(store: Store, id: string, users: seq<User>, r: Read)
    requires Consistent(store) && Carries(store.rows, r)
    ensures Carries(Sync(store, id, users).store.rows, r)
  {
    SyncKeeps(store, id, users);
  }

  /** The same rows, each read and confirmed at least as before. */
  lemma CarriesOver(rows: seq<Read>, after: seq<Read>, r: Read)
    requires Carries(rows, r) && |after| == |rows|
    requires forall i | 0 <= i < |rows| :: after[i].ann == rows[i].ann && after[i].user == rows[i].user
               && (rows[i].readAt.Some? ==> after[i].readAt == rows[i].readAt)
               && (rows[i].confirmedAt.Some? ==> after[i].confirmedAt.Some?)
    ensures Carries(after, r)
  {
  }

  lemma DeleteCarries(store: Store, id: string, r: Read)
    requires Carries(store.rows, r) && id != r.ann
    ensures Carries(Deleted(store, id).store.rows, r)
  {
    WithoutHolds(store.rows, id);
    var i :| 0 <= i < |store.rows| && store.rows[i].ann == r.ann && store.rows[i].user == r.user
             && (r.readAt.Some? ==> store.rows[i].readAt == r.readAt) && (r.confirmedAt.Some? ==> store.rows[i].confirmedAt.Some?);
    assert store.rows[i] in Without(store.rows, id);
  }

  /** Over any run without deleting the announcement: once read, always read at that time, and confirmed stays confirmed. */
  lemma {:induction false} ReadTimesStay(states: seq<Store>, calls: seq<Call>, m: nat, n: nat, r: Read)
    requires Run(states, calls) && Consistent(states[0]) && m <= n <= |calls|
    requires forall i | m <= i < n :: calls[i] != Delete(r.ann)
    requires r in states[m].rows
    ensures Carries(states[n].rows, r)
  {
    if m == n {
      var i :| 0 <= i < |states[m].rows| && states[m].rows[i] == r;
    } else {
      ReadTimesStay(states, calls, m, n - 1, r);
      RunKeepsConsistent(states, calls, n - 1);
      StepCarries(states[n - 1], calls[n - 1], r);
    }
  }

  // ---------- sending ----------

  /** After creating or updating goes through, a sent announcement has exactly one row for each recipient. */
  lemma SentReachesEveryRecipient(store: Store, call: Call, id: string, user: string)
    requires Consistent(store) && Allowed(store, call)
    requires (call.Create? || (call.Update? && (call.targets.Some? || call.schedule.Given?)) || call.Resync?) && call.id == id
    requires var out := Next(store, call); out.error.None? && id in out.store.anns && out.store.anns[id].status == Sent
    ensures var after := Next(store, call).store;
            IsRecipient(after.anns[id].targets, call.users, user) ==> HasRead(after.rows, id, user)
    ensures OneRowEach(Next(store, call).store.rows)
  {
    StepKeepsConsistent(store, call);
    var saved := if call.Create? then store.(anns := store.anns[id := NewAnnouncement(call.scheduledAt, call.to, call.now)])
                 else if call.Update? then store.(anns := store.anns[id := Patched(store.anns[id], call.schedule, call.targets, call.now)])
                 else store;
    SyncReaches(saved, id, call.users, user);
  }

  lemma SyncReaches(store: Store, id: string, users: seq<User>, user: string)
    requires OneRowEach(store.rows) && id in store.anns && store.anns[id].status == Sent
    ensures Sync(store, id, users).error.None? && IsRecipient(store.anns[id].targets, users, user) ==>
              HasRead(Sync(store, id, users).store.rows, id, user)
  {
    ResolvedExactly(store.anns[id].targets, users, user);
    SyncCoversExactlyWhen(store.rows, id, ResolveRecipientUserIds(store.anns[id].targets, users), Known(users));
  }

  /** Identifiers that targets name directly though no user has them and no row exists. */
  ghost predicate NamesStranger(store: Store, id: string, users: seq<User>, stranger: string)
    requires id in store.anns
  {
    && stranger != "" && Target(OneUser, Some(stranger)) in store.anns[id].targets
    && stranger !in Known(users) && !HasRead(store.rows, id, stranger)
  }

  /** Synchronising fails exactly when, with no target for everyone, one names a stranger. */
  lemma SyncFailsExactlyWhen(store: Store, id: string, users: seq<User>)
    requires OneRowEach(store.rows) && id in store.anns && store.anns[id].status == Sent
    ensures var targets := store.anns[id].targets;
            Sync(store, id, users).error.Some? <==>
              (forall t | t in targets :: t.kind != Everyone) && exists s :: NamesStranger(store, id, users, s)
  {
    var targets := store.anns[id].targets;
    var recipients := ResolveRecipientUserIds(targets, users);
    ResolvedExactly(targets, users, "");
    SyncCoversExactlyWhen(store.rows, id, recipients, Known(users));
    if u :| u in recipients && !HasRead(store.rows, id, u) && u !in Known(users) {
      ResolvedExactly(targets, users, u);
      assert NamesStranger(store, id, users, u);
    }
    if (forall t | t in targets :: t.kind != Everyone) && exists s :: NamesStranger(store, id, users, s) {
      var s :| NamesStranger(store, id, users, s);
      assert Reaches(Target(OneUser, Some(s)), users, s);
      ResolvedExactly(targets, users, s);
    }
  }

  /** Synchronising twice is synchronising once. */
  lemma SyncIsIdempotent(store: Store, id: string, users: seq<User>)
    requires OneRowEach(store.rows)
    ensures Sync(Sync(store, id, users).store, id, users) == Sync(store, id, users)
  {
    if id in store.anns && store.anns[id].status == Sent {
      ResolvedExactly(store.anns[id].targets, users, "");
      SyncTwice(store.rows, id, ResolveRecipientUserIds(store.anns[id].targets, users), Known(users));
    }
  }

  // ---------- a schedule that nobody watches ----------

  predicate IsScheduled(store: Store, id: string) {
    id in store.anns && store.anns[id].status == Scheduled
  }

  /** Deletes the announcement, or updates it with a schedule field that is there but empty. */
  predicate Releases(call: Call, id: string) {
    call == Delete(id) || (call.Update? && call.id == id && call.schedule == Given(None))
  }

  lemma SyncElsewhere(store: Store, other: string, users: seq<User>, id: string, user: string)
    requires Consistent(store) && (other != id || IsScheduled(store, id))
    ensures HasRead(Sync(store, other, users).store.rows, id, user) <==> HasRead(store.rows, id, user)
  {
    if other in store.anns && store.anns[other].status == Sent {
      var recipients := ResolveRecipientUserIds(store.anns[other].targets, users);
      ResolvedExactly(store.anns[other].targets, users, "");
      SyncedRows(store.rows, other, recipients, Known(users));
    }
  }

  lemma SameReaders(rows: seq<Read>, after: seq<Read>, id: string, user: string)
    requires |after| == |rows|
    requires forall i | 0 <= i < |rows| :: after[i].ann == rows[i].ann && after[i].user == rows[i].user
    ensures HasRead(after, id, user) <==> HasRead(rows, id, user)
  {
    if HasRead(rows, id, user) {
      var i :| 0 <= i < |rows| && rows[i].ann == id && rows[i].user == user;
      assert after[i].ann == id && after[i].user == user;
    }
  }

  lemma OpeningKeepsReaders(store: Store, other: string, reader: string, isAdmin: bool, now: int, id: string, user: string)
    ensures Opened(store, other, reader, isAdmin, now).store.anns == store.anns
    ensures HasRead(Opened(store, other, reader, isAdmin, now).store.rows, id, user) <==> HasRead(store.rows, id, user)
  {
    SameReaders(store.rows, Opened(store, other, reader, isAdmin, now).store.rows, id, user);
  }

  lemma ConfirmingKeepsReaders(store: Store, other: string, reader: string, now: int, id: string, user: string)
    ensures ConfirmedRead(store, other, reader, now).store.anns == store.anns
    ensures HasRead(ConfirmedRead(store, other, reader, now).store.rows, id, user) <==> HasRead(store.rows, id, user)
  {
    SameReaders(store.rows, ConfirmedRead(store, other, reader, now).store.rows, id, user);
  }

  lemma DeleteElsewhere(store: Store, other: string, id: string, user: string)
    requires other != id
    ensures HasRead(Deleted(store, other).store.rows, id, user) ==> HasRead(store.rows, id, user)
  {
    WithoutHolds(store.rows, other);
    var rest := Without(store.rows, other);
    if other in store.anns && HasRead(rest, id, user) {
      var i :| 0 <= i < |rest| && rest[i].ann == id && rest[i].user == user;
      assert rest[i] in rest;
    }
  }

  /** No call that does not release a scheduled announcement changes its state or gives anybody a row of it. */
  lemma StepKeepsScheduled(store: Store, call: Call, id: string, user: string)
    requires Consistent(store) && Allowed(store, call) && IsScheduled(store, id)
    ensures IsScheduled(Next(store, call).store, id) <==> !Releases(call, id)
    ensures !Releases(call, id) && HasRead(Next(store, call).store.rows, id, user) ==> HasRead(store.rows, id, user)
  {
    match call
    case Create(other, scheduledAt, to, now, users) =>
      var saved := store.(anns := store.anns[other := NewAnnouncement(scheduledAt, to, now)]);
      SyncKeeps(saved, other, users);
      SyncElsewhere(saved, other, users, id, user);
    case Update(other, schedule, targets, now, users) =>
      if other in store.anns && !Releases(call, id) {
        var saved := store.(anns := store.anns[other := Patched(store.anns[other], schedule, targets, now)]);
        SyncElsewhere(saved, other, users, id, user);
      }
    case Delete(other) =>
      if other != id { DeleteElsewhere(store, other, id, user); }
    case FindOne(other, reader, isAdmin, now) => OpeningKeepsReaders(store, other, reader, isAdmin, now, id, user);
    case ConfirmRead(other, reader, now) => ConfirmingKeepsReaders(store, other, reader, now, id, user);
    case MarkAllAsRead(reader, now) => SameReaders(store.rows, AllRead(store, reader, now).rows, id, user);
    case Resync(other, users) =>
      SyncElsewhere(store, other, users, id, user);
  }

  ghost predicate ScheduledThroughout(states: seq<Store>, m: nat, n: nat, id: string)
    requires n < |states|
  {
    forall k | m <= k <= n :: IsScheduled(states[k], id)
  }

  ghost predicate NotReleased(calls: seq<Call>, m: nat, n: nat, id: string)
    requires n <= |calls|
  {
    forall i | m <= i < n :: !Releases(calls[i], id)
  }

  lemma OneMoreState(states: seq<Store>, m: nat, n: nat, id: string)
    requires m <= n + 1 < |states|
    ensures ScheduledThroughout(states, m, n + 1, id) <==> ScheduledThroughout(states, m, n, id) && IsScheduled(states[n + 1], id)
  {
  }

  lemma OneMoreCall(calls: seq<Call>, m: nat, n: nat, id: string)
    requires m <= n < |calls|
    ensures NotReleased(calls, m, n + 1, id) <==> NotReleased(calls, m, n, id) && !Releases(calls[n], id)
  {
  }

  lemma RunStepKeepsScheduled(states: seq<Store>, calls: seq<Call>, i: nat, id: string, user: string)
    requires Run(states, calls) && Consistent(states[0]) && i < |calls| && IsScheduled(states[i], id)
    ensures IsScheduled(states[i + 1], id) <==> !Releases(calls[i], id)
    ensures !Releases(calls[i], id) && HasRead(states[i + 1].rows, id, user) ==> HasRead(states[i].rows, id, user)
  {
    RunKeepsConsistent(states, calls, i);
    StepKeepsScheduled(states[i], calls[i], id, user);
  }

  /** Every call from a state in which the announcement is scheduled does what `StepKeepsScheduled` says. */
  ghost predicate StepsKeepScheduled(states: seq<Store>, calls: seq<Call>, id: string, user: string)
    requires |states| == |calls| + 1
  {
    forall i | 0 <= i < |calls| && IsScheduled(states[i], id) ::
      && (IsScheduled(states[i + 1], id) <==> !Releases(calls[i], id))
      && (!Releases(calls[i], id) && HasRead(states[i + 1].rows, id, user) ==> HasRead(states[i].rows, id, user))
  }

  lemma {:induction false} StepsAddUp(states: seq<Store>, calls: seq<Call>, m: nat, n: nat, id: string, user: string)
    requires |states| == |calls| + 1 && StepsKeepScheduled(states, calls, id, user)
    requires m <= n <= |calls| && IsScheduled(states[m], id)
    ensures ScheduledThroughout(states, m, n, id) <==> NotReleased(calls, m, n, id)
    ensures NotReleased(calls, m, n, id) && HasRead(states[n].rows, id, user) ==> HasRead(states[m].rows, id, user)
  {
    if m < n {
      StepsAddUp(states, calls, m, n - 1, id, user);
      OneMoreCall(calls, m, n - 1, id);
      OneMoreState(states, m, n - 1, id);
    }
  }

  /**
   Nothing sends a scheduled announcement when its time comes: over every run it stays scheduled, and
   reaches nobody new, however far the clock moves past its schedule, exactly until it is deleted or
   updated with an empty schedule field.
   */
  lemma ScheduledUntilReleased(states: seq<Store>, calls: seq<Call>, m: nat, n: nat, id: string, user: string)
    requires Run(states, calls) && Consistent(states[0]) && m <= n <= |calls| && IsScheduled(states[m], id)
    ensures ScheduledThroughout(states, m, n, id) <==> NotReleased(calls, m, n, id)
    ensures NotReleased(calls, m, n, id) && HasRead(states[n].rows, id, user) ==> HasRead(states[m].rows, id, user)
  {
    forall i | 0 <= i < |calls| && IsScheduled(states[i], id)
      ensures IsScheduled(states[i + 1], id) <==> !Releases(calls[i], id)
      ensures !Releases(calls[i], id) && HasRead(states[i + 1].rows, id, user) ==> HasRead(states[i].rows, id, user)
    {
      RunStepKeepsScheduled(states, calls, i, id, user);
    }
    StepsAddUp(states, calls, m, n, id, user);
  }

  // ---------- counting ----------

  function OfAnnouncement(id: string): Read -> bool {
    (r: Read) => r.ann == id
  }

  function ReadOf(id: string): Read -> bool {
    (r: Read) => r.ann == id && r.readAt.Some?
  }

  function ConfirmedOf(id: string): Read -> bool {
    (r: Read) => r.ann == id && r.confirmedAt.Some?
  }

  function Inbox(anns: map<string, Announcement>, user: string): Read -> bool {
    (r: Read) => InInbox(anns, r, user)
  }

  function ConfirmedBy(anns: map<string, Announcement>, user: string): Read -> bool {
    (r: Read) => InInbox(anns, r, user) && r.confirmedAt.Some?
  }

  lemma {:induction false} CountGrows(rows: seq<Read>, p: Read -> bool, q: Read -> bool)
    requires forall r | r in rows && p(r) :: q(r)
    ensures Count(rows, p) <= Count(rows, q)
  {
    if rows != [] {
      assert rows[0] in rows;
      CountGrows(rows[1..], p, q);
    }
  }

  lemma {:induction false} CountSplits(rows: seq<Read>, all: Read -> bool, p: Read -> bool, q: Read -> bool)
    requires forall r | r in rows :: (all(r) <==> p(r) || q(r)) && !(p(r) && q(r))
    ensures Count(rows, all) == Count(rows, p) + Count(rows, q)
  {
    if rows != [] {
      assert rows[0] in rows;
      CountSplits(rows[1..], all, p, q);
    }
  }

  lemma {:induction false} CountSame(a: seq<Read>, b: seq<Read>, p: Read -> bool, q: Read -> bool)
    requires |a| == |b| && forall i | 0 <= i < |a| :: p(a[i]) <==> q(b[i])
    ensures Count(a, p) == Count(b, q)
  {
    if a != [] {
      CountSame(a[1..], b[1..], p, q);
    }
  }

  lemma {:induction false} CountZero(rows: seq<Read>, p: Read -> bool)
    ensures Count(rows, p) == 0 <==> forall i | 0 <= i < |rows| :: !p(rows[i])
  {
    if rows != [] {
      CountZero(rows[1..], p);
      assert forall i | 0 < i < |rows| :: rows[i] == rows[1..][i - 1];
      assert forall i | 0 <= i < |rows[1..]| :: rows[1..][i] == rows[i + 1];
    }
  }

  /** Confirmed rows are read rows, and read rows are rows. */
  lemma StatisticsAreOrdered(store: Store, id: string)
    requires Consistent(store)
    ensures Count(store.rows, ConfirmedOf(id)) <= Count(store.rows, ReadOf(id)) <= Count(store.rows, OfAnnouncement(id))
  {
    forall r | r in store.rows && ConfirmedOf(id)(r) ensures ReadOf(id)(r) {
      var i :| 0 <= i < |store.rows| && store.rows[i] == r;
    }
    CountGrows(store.rows, ConfirmedOf(id), ReadOf(id));
    CountGrows(store.rows, ReadOf(id), OfAnnouncement(id));
  }

  lemma InboxIsOrdered(store: Store, user: string)
    requires Consistent(store)
    ensures Count(store.rows, ConfirmedBy(store.anns, user)) + Count(store.rows, UnreadBy(store.anns, user))
              <= Count(store.rows, Inbox(store.anns, user))
  {
    var inbox, unread := Inbox(store.anns, user), UnreadBy(store.anns, user);
    var seen: Read -> bool := (r: Read) => inbox(r) && r.readAt.Some?;
    forall r | r in store.rows && ConfirmedBy(store.anns, user)(r) ensures seen(r) {
      var i :| 0 <= i < |store.rows| && store.rows[i] == r;
    }
    CountGrows(store.rows, ConfirmedBy(store.anns, user), seen);
    CountSplits(store.rows, inbox, seen, unread);
  }

  /** Marking all as read: nothing unread is left to the user, and nobody else's counts change. */
  lemma MarkingAllAsRead(store: Store, user: string, now: int, other: string)
    ensures var after := AllRead(store, user, now);
            && after.anns == store.anns && |after.rows| == |store.rows|
            && Count(after.rows, UnreadBy(store.anns, user)) == 0
            && Count(after.rows, Inbox(store.anns, other)) == Count(store.rows, Inbox(store.anns, other))
            && (other != user ==> Count(after.rows, UnreadBy(store.anns, other)) == Count(store.rows, UnreadBy(store.anns, other)))
            && (Count(store.rows, UnreadBy(store.anns, user)) == 0 ==> after == store)
  {
    var after := AllRead(store, user, now);
    CountZero(after.rows, UnreadBy(store.anns, user));
    CountZero(store.rows, UnreadBy(store.anns, user));
    CountSame(after.rows, store.rows, Inbox(store.anns, other), Inbox(store.anns, other));
    if other != user {
      CountSame(after.rows, store.rows, UnreadBy(store.anns, other), UnreadBy(store.anns, other));
    }
    if Count(store.rows, UnreadBy(store.anns, user)) == 0 {
      assert forall i | 0 <= i < |store.rows| :: !UnreadBy(store.anns, user)(store.rows[i]);
      assert after.rows == store.rows;
    }
  }

  // ---------- what a call stores, field by field ----------

  /** The targets as sent, in their order, an empty identifier becoming none. */
  ghost predicate TargetsAsSent(sent: seq<Target>, stored: seq<Target>) {
    && |stored| == |sent|
    && forall i | 0 <= i < |sent| ::
         stored[i].kind == sent[i].kind && stored[i].id == if sent[i].id == Some("") then None else sent[i].id
  }

  /** Rows are only appended, and only of this announcement, for recipients, neither read nor confirmed. */
  ghost predicate RowsAppended(before: seq<Read>, after: seq<Read>, id: string, targets: seq<Target>, users: seq<User>) {
    && before <= after
    && forall i | |before| <= i < |after| ::
         && after[i].ann == id && after[i].readAt == None && after[i].confirmedAt == None
         && IsRecipient(targets, users, after[i].user) && exists u :: u in users && u.id == after[i].user
  }

  lemma SyncAppends(store: Store, id: string, users: seq<User>)
    requires OneRowEach(store.rows)
    ensures var out := Sync(store, id, users);
            && out.store.anns == store.anns
            && (out.store.rows != store.rows || out.error != None ==> id in store.anns && store.anns[id].status == Sent)
            && (id in store.anns ==> RowsAppended(store.rows, out.store.rows, id, store.anns[id].targets, users))
  {
    if id in store.anns && store.anns[id].status == Sent {
      var recipients := ResolveRecipientUserIds(store.anns[id].targets, users);
      ResolvedExactly(store.anns[id].targets, users, "");
      var missing := Missing(store.rows, id, recipients);
      var added := missing[..Inserted(missing, Known(users))];
      SyncedRows(store.rows, id, recipients, Known(users));
      MissingHolds(store.rows, id, recipients);
      forall i | 0 <= i < |added| ensures IsRecipient(store.anns[id].targets, users, added[i]) && added[i] in Known(users) {
        assert added[i] in missing;
        ResolvedExactly(store.anns[id].targets, users, added[i]);
        InsertedAreKnown(missing, Known(users), i);
      }
      assert forall i | 0 <= i < |added| :: (store.rows + NewRows(id, added))[|store.rows| + i] == Read(id, added[i], None, None);
    }
  }

  lemma InsertedAreKnown(missing: seq<string>, known: set<string>, i: nat)
    requires i < Inserted(missing, known)
    ensures missing[i] in known
  {
  }

  /**
   A new announcement with a schedule waits for it; without one it is sent at once. Its targets are those
   sent, no other announcement changes, and rows are appended for it only, once it is sent.
   */
  lemma StoredAfterCreation(store: Store, id: string, scheduledAt: Option<int>, targets: seq<Target>, now: int, users: seq<User>)
    requires id !in store.anns && OneRowEach(store.rows)
    ensures var after := Created(store, id, scheduledAt, targets, now, users).store;
            && after.anns.Keys == store.anns.Keys + {id} && (forall i | i in store.anns :: after.anns[i] == store.anns[i])
            && after.anns[id].scheduledAt == scheduledAt && TargetsAsSent(targets, after.anns[id].targets)
            && (scheduledAt.Some? ==> after.anns[id].status == Scheduled && after.anns[id].sentAt == None && after.rows == store.rows)
            && (scheduledAt.None? ==> after.anns[id].status == Sent && after.anns[id].sentAt == Some(now))
            && RowsAppended(store.rows, after.rows, id, after.anns[id].targets, users)
  {
    SyncAppends(store.(anns := store.anns[id := NewAnnouncement(scheduledAt, targets, now)]), id, users);
  }

  /**
   An update with a time schedules the announcement for it, sent or not; with an empty schedule field it
   sends a scheduled one now and only clears the schedule of others; without the field it leaves all three.
   */
  lemma StoredAfterUpdate(store: Store, id: string, schedule: Schedule, targets: Option<seq<Target>>, now: int, users: seq<User>)
    requires id in store.anns && OneRowEach(store.rows)
    ensures var out := Updated(store, id, schedule, targets, now, users);
            var a, b := store.anns[id], out.store.anns[id];
            && out.store.anns.Keys == store.anns.Keys && (forall i | i in store.anns && i != id :: out.store.anns[i] == store.anns[i])
            && (match schedule
                case NotSent => b.status == a.status && b.scheduledAt == a.scheduledAt && b.sentAt == a.sentAt
                case Given(Some(time)) => b.status == Scheduled && b.scheduledAt == Some(time) && b.sentAt == None
                case Given(None) =>
                  b.scheduledAt == None &&
                  if a.status == Scheduled then b.status == Sent && b.sentAt == Some(now) else b.status == a.status && b.sentAt == a.sentAt)
            && (if targets.Some? then TargetsAsSent(targets.value, b.targets) else b.targets == a.targets)
            && RowsAppended(store.rows, out.store.rows, id, b.targets, users)
            && (b.status != Sent || (schedule == NotSent && targets == None) ==> out.store.rows == store.rows && out.error == None)
  {
    SyncAppends(store.(anns := store.anns[id := Patched(store.anns[id], schedule, targets, now)]), id, users);
  }

  /** A call on an announcement that is not there says so and changes nothing; no other call says it. */
  lemma NotFoundExactly(store: Store, call: Call)
    ensures Next(store, call).error == Some(NotFound) <==>
              (call.Update? || call.Delete? || call.FindOne? || call.ConfirmRead?) && call.id !in store.anns
    ensures Next(store, call).error == Some(NotFound) ==> Next(store, call).store == store
  {
  }

  /** The announcement goes, with all its rows and no other. */
  lemma StoredAfterDeletion(store: Store, id: string)
    requires id in store.anns
    ensures var after := Deleted(store, id).store;
            && Deleted(store, id).error == None && after.anns.Keys == store.anns.Keys - {id}
            && (forall i | i in after.anns :: after.anns[i] == store.anns[i])
            && (forall r :: r in after.rows <==> r in store.rows && r.ann != id)
  {
    WithoutHolds(store.rows, id);
  }

  /** Only the row of this announcement and user may change, in its two times only. */
  ghost predicate OneRowChanges(before: seq<Read>, after: seq<Read>, id: string, user: string) {
    && |after| == |before|
    && forall i | 0 <= i < |before| ::
         && after[i].ann == before[i].ann && after[i].user == before[i].user
         && (before[i].ann != id || before[i].user != user ==> after[i] == before[i])
  }

  /** Opening: an administrator leaves no trace; anybody else needs a row, and the first time is kept as its read time. */
  lemma StoredAfterOpening(store: Store, id: string, user: string, isAdmin: bool, now: int)
    requires OneRowEach(store.rows)
    ensures var out := Opened(store, id, user, isAdmin, now);
            && (out.error == Some(NotFound) <==> id !in store.anns)
            && (out.error == Some(ForbiddenAccess) <==> id in store.anns && !isAdmin && !HasRead(store.rows, id, user))
            && out.store.anns == store.anns && OneRowChanges(store.rows, out.store.rows, id, user)
            && forall i | 0 <= i < |store.rows| && store.rows[i].ann == id && store.rows[i].user == user ::
                 && out.store.rows[i].confirmedAt == store.rows[i].confirmedAt
                 && out.store.rows[i].readAt ==
                    if id in store.anns && !isAdmin && store.rows[i].readAt == None then Some(now) else store.rows[i].readAt
  {
  }

  /** Confirming needs a row too; it writes the present as the confirmation, anew each time, and as the read time if there is none. */
  lemma StoredAfterConfirming(store: Store, id: string, user: string, now: int)
    requires OneRowEach(store.rows)
    ensures var out := ConfirmedRead(store, id, user, now);
            && (out.error == Some(NotFound) <==> id !in store.anns)
            && (out.error == Some(ForbiddenAccess) <==> id in store.anns && !HasRead(store.rows, id, user))
            && out.store.anns == store.anns && OneRowChanges(store.rows, out.store.rows, id, user)
            && forall i | 0 <= i < |store.rows| && id in store.anns && store.rows[i].ann == id && store.rows[i].user == user ::
                 && out.store.rows[i].confirmedAt == Some(now)
                 && out.store.rows[i].readAt == if store.rows[i].readAt == None then Some(now) else store.rows[i].readAt
  {
  }

  /** Marking all as read writes the present into the user's unread rows of sent announcements, and nothing else. */
  lemma StoredAfterMarkingAll(store: Store, user: string, now: int, i: nat)
    requires i < |store.rows|
    ensures var after, r := AllRead(store, user, now), store.rows[i];
            && after.anns == store.anns && |after.rows| == |store.rows|
            && after.rows[i].ann == r.ann && after.rows[i].user == r.user && after.rows[i].confirmedAt == r.confirmedAt
            && after.rows[i].readAt ==
               if r.user == user && r.readAt == None && r.ann in store.anns && store.anns[r.ann].status == Sent then Some(now) else r.readAt
  {
  }

  /** A count is the number of rows counted. */
  lemma {:induction false} CountsRows(rows: seq<Read>, counted: Read -> bool)
    ensures Count(rows, counted) == |set i | 0 <= i < |rows| && counted(rows[i])|
  {
    var here := set i | 0 <= i < |rows| && counted(rows[i]);
    if rows != [] {
      CountsRows(rows[1..], counted);
      var rest := set i | 0 <= i < |rows[1..]| && counted(rows[1..][i]);
      var moved := set i | i in rest :: i + 1;
      MovedSize(rest);
      assert here == moved + (if counted(rows[0]) then {0} else {}) by {
        forall i | i in here && i != 0 ensures i in moved {
          assert rows[1..][i - 1] == rows[i] && i - 1 in rest;
        }
      }
    }
  }

  lemma {:induction false} MovedSize(s: set<int>)
    ensures |set i | i in s :: i + 1| == |s|
    decreases s
  {
    var moved := set i | i in s :: i + 1;
    HasMember(s);
    if s != {} {
      var x :| x in s;
      MovedSize(s - {x});
      var rest := set i | i in s - {x} :: i + 1;
      forall j ensures j in moved <==> j in rest || j == x + 1 {
        if j in moved && j != x + 1 {
          assert j - 1 in s - {x};
        }
      }
      assert moved == rest + {x + 1} && x + 1 !in rest;
    }
  }

  /** The statistics of an announcement count its rows, those read, and those confirmed. */
  lemma StatisticsCountRows(store: Store, id: string)
    ensures Count(store.rows, OfAnnouncement(id)) == |set i | 0 <= i < |store.rows| && store.rows[i].ann == id|
    ensures Count(store.rows, ReadOf(id)) == |set i | 0 <= i < |store.rows| && store.rows[i].ann == id && store.rows[i].readAt != None|
    ensures Count(store.rows, ConfirmedOf(id)) ==
            |set i | 0 <= i < |store.rows| && store.rows[i].ann == id && store.rows[i].confirmedAt != None|
  {
    CountsRows(store.rows, OfAnnouncement(id));
    CountsRows(store.rows, ReadOf(id));
    CountsRows(store.rows, ConfirmedOf(id));
    SameRows(store.rows, OfAnnouncement(id), set i | 0 <= i < |store.rows| && store.rows[i].ann == id);
    SameRows(store.rows, ReadOf(id), set i | 0 <= i < |store.rows| && store.rows[i].ann == id && store.rows[i].readAt != None);
    SameRows(store.rows, ConfirmedOf(id), set i | 0 <= i < |store.rows| && store.rows[i].ann == id && store.rows[i].confirmedAt != None);
  }

  lemma SameRows(rows: seq<Read>, counted: Read -> bool, positions: set<int>)
    requires forall i :: i in positions <==> 0 <= i < |rows| && counted(rows[i])
    ensures (set i | 0 <= i < |rows| && counted(rows[i])) == positions
  {
  }

  /** In the inbox of a user are the rows with that user of sent announcements. */
  ghost predicate ToUser(store: Store, i: int, user: string)
    requires 0 <= i < |store.rows|
  {
    store.rows[i].user == user && store.rows[i].ann in store.anns && store.anns[store.rows[i].ann].status == Sent
  }

  /** The statistics of an inbox count its rows, those not read, and those confirmed. */
  lemma InboxStatisticsCountRows(store: Store, user: string)
    ensures Count(store.rows, Inbox(store.anns, user)) == |set i | 0 <= i < |store.rows| && ToUser(store, i, user)|
    ensures Count(store.rows, UnreadBy(store.anns, user)) ==
            |set i | 0 <= i < |store.rows| && ToUser(store, i, user) && store.rows[i].readAt == None|
    ensures Count(store.rows, ConfirmedBy(store.anns, user)) ==
            |set i | 0 <= i < |store.rows| && ToUser(store, i, user) && store.rows[i].confirmedAt != None|
  {
    CountsRows(store.rows, Inbox(store.anns, user));
    CountsRows(store.rows, UnreadBy(store.anns, user));
    CountsRows(store.rows, ConfirmedBy(store.anns, user));
    SameRows(store.rows, Inbox(store.anns, user), set i | 0 <= i < |store.rows| && ToUser(store, i, user));
    SameRows(store.rows, UnreadBy(store.anns, user),
             set i | 0 <= i < |store.rows| && ToUser(store, i, user) && store.rows[i].readAt == None);
    SameRows(store.rows, ConfirmedBy(store.anns, user),
             set i | 0 <= i < |store.rows| && ToUser(store, i, user) && store.rows[i].confirmedAt != None);
  }

  // ---------- the service ----------

  class AnnouncementsService {
    var store: Store

    constructor ()
      ensures store == Store(map[], []) && Consistent(store)
    {
      store := Store(map[], []);
    }

    method SyncReadStatusesForAnnouncement(id: string, users: seq<User>) returns (error: Option<Error>)
      modifies this
      ensures Outcome(store, error) == Sync(old(store), id, users)
    {
      if id !in store.anns || store.anns[id].status != Sent {
        return None;
      }
      var recipientIds := ResolveRecipientUserIds(store.anns[id].targets, users);
      var missingIds := Missing(store.rows, id, recipientIds);
      var chunks := ChunkArray(missingIds, 300);
      var i := 0;
      while i < |chunks|
        invariant 0 <= i <= |chunks| && store.anns == old(store).anns
        invariant Synced(old(store).rows, id, recipientIds, Known(users)) == InsertChunks(store.rows, id, chunks[i..], Known(users))
      {
        assert chunks[i..][0] == chunks[i] && chunks[i..][1..] == chunks[i + 1..];
        if exists u :: u in chunks[i] && u !in Known(users) {
          return Some(InsertFailed);
        }
        store := store.(rows := store.rows + NewRows(id, chunks[i]));
        i := i + 1;
      }
      error := None;
    }

    method CreateAnnouncement(id: string, scheduledAt: Option<int>, targets: seq<Target>, now: int, users: seq<User>)
        returns (error: Option<Error>)
      requires id !in store.anns
      modifies this
      ensures Outcome(store, error) == Next(old(store), Call.Create(id, scheduledAt, targets, now, users))
    {
      store := store.(anns := store.anns[id := NewAnnouncement(scheduledAt, targets, now)]);
      error := None;
      if store.anns[id].status == Sent {
        error := SyncReadStatusesForAnnouncement(id, users);
      }
    }

    method UpdateAnnouncement(id: string, schedule: Schedule, targets: Option<seq<Target>>, now: int, users: seq<User>)
        returns (error: Option<Error>)
      modifies this
      ensures Outcome(store, error) == Next(old(store), Call.Update(id, schedule, targets, now, users))
    {
      if id !in store.anns {
        return Some(NotFound);
      }
      var a := store.anns[id];
      if schedule.Given? {
        a := a.(scheduledAt := schedule.at);
        if schedule.at.Some? {
          a := a.(status := Scheduled, sentAt := None);
        } else if store.anns[id].status == Scheduled {
          a := a.(status := Sent, sentAt := Some(now));
        }
      }
      assert a == Patched(store.anns[id], schedule, None, now);
      store := store.(anns := store.anns[id := a]);
      if targets.Some? {
        store := store.(anns := store.anns[id := a.(targets := Stored(targets.value))]);
      }
      assert store == old(store).(anns := old(store).anns[id := Patched(old(store).anns[id], schedule, targets, now)]);
      error := None;
      if a.status == Sent && (targets.Some? || schedule.Given?) {
        error := SyncReadStatusesForAnnouncement(id, users);
      }
    }

    method DeleteAnnouncement(id: string) returns (error: Option<Error>)
      modifies this
      ensures Outcome(store, error) == Next(old(store), Call.Delete(id))
    {
      if id !in store.anns {
        return Some(NotFound);
      }
      store := Store(store.anns - {id}, Without(store.rows, id));
      error := None;
    }

    method FindOneAnnouncement(id: string, user: string, isAdmin: bool, now: int) returns (error: Option<Error>, readAt: Option<int>)
      modifies this
      ensures Outcome(store, error) == Next(old(store), Call.FindOne(id, user, isAdmin, now))
      ensures error.None? && !isAdmin ==>
                var i := RowOf(old(store).rows, id, user);
                i.Some? && readAt == if old(store).rows[i.value].readAt.Some? then old(store).rows[i.value].readAt else Some(now)
    {
      readAt := None;
      if id !in store.anns {
        return Some(NotFound), None;
      }
      if !isAdmin {
        var i := RowOf(store.rows, id, user);
        if i.None? {
          return Some(ForbiddenAccess), None;
        }
        if store.rows[i.value].readAt.None? {
          store := store.(rows := store.rows[i.value := store.rows[i.value].(readAt := Some(now))]);
        }
        readAt := store.rows[i.value].readAt;
      }
      error := None;
    }

    method ConfirmAnnouncement(id: string, user: string, now: int) returns (error: Option<Error>)
      modifies this
      ensures Outcome(store, error) == Next(old(store), Call.ConfirmRead(id, user, now))
    {
      if id !in store.anns {
        return Some(NotFound);
      }
      var i := RowOf(store.rows, id, user);
      if i.None? {
        return Some(ForbiddenAccess);
      }
      var row := store.rows[i.value];
      if row.readAt.None? {
        row := row.(readAt := Some(now));
      }
      row := row.(confirmedAt := Some(now));
      store := store.(rows := store.rows[i.value := row]);
      error := None;
    }

    method MarkAllRead(user: string, now: int) returns (updated: nat)
      modifies this
      ensures updated == Count(old(store).rows, UnreadBy(old(store).anns, user))
      ensures store == Next(old(store), Call.MarkAllAsRead(user, now)).store
      ensures Count(store.rows, UnreadBy(store.anns, user)) == 0
    {
      MarkingAllAsRead(store, user, now, user);
      updated := Count(store.rows, UnreadBy(store.anns, user));
      if updated == 0 {
        return;
      }
      store := AllRead(store, user, now);
    }

    method GetStatistics(id: string) returns (error: Option<Error>, total: nat, read: nat, unread: nat, confirmed: nat)
      requires Consistent(store)
      ensures error == if id in store.anns then None else Some(NotFound)
      ensures error.None? ==>
                && total == Count(store.rows, OfAnnouncement(id)) && read == Count(store.rows, ReadOf(id))
                && confirmed == Count(store.rows, ConfirmedOf(id)) && read + unread == total && confirmed <= read
    {
      total, read, unread, confirmed := 0, 0, 0, 0;
      if id !in store.anns {
        return Some(NotFound), 0, 0, 0, 0;
      }
      StatisticsAreOrdered(store, id);
      total := Count(store.rows, OfAnnouncement(id));
      read := Count(store.rows, ReadOf(id));
      confirmed := Count(store.rows, ConfirmedOf(id));
      unread := if total - read > 0 then total - read else 0;
      error := None;
    }

    method GetInboxStatistics(user: string) returns (total: nat, unread: nat, read: nat, confirmed: nat)
      requires Consistent(store)
      ensures total == Count(store.rows, Inbox(store.anns, user)) && unread == Count(store.rows, UnreadBy(store.anns, user))
      ensures confirmed == Count(store.rows, ConfirmedBy(store.anns, user)) && read + unread == total && confirmed <= read
    {
      InboxIsOrdered(store, user);
      total := Count(store.rows, Inbox(store.anns, user));
      unread := Count(store.rows, UnreadBy(store.anns, user));
      confirmed := Count(store.rows, ConfirmedBy(store.anns, user));
      read := if total - unread > 0 then total - unread else 0;
    }
  }
}
