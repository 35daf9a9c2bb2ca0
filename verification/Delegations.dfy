/**
 Delegations of authority and their two conflict checks
 (backend_nest/src/authority-process/authority-process.service.ts and its queries in
 backend_nest/src/database/sqlRepo.mssql.ts). Times are instants on one clock.
 */
module Delegations {
  import opened Prelude

  const RUNNING := 1
  const EXPIRED := 0
  const FORCED := 2

  const ACTIVE := 1
  const DELETED := 3

  datatype Delegation = Delegation(author: string, authorized: string, stage: int, status: int, start: int, end: int)

  type Table = map<int, Delegation>

  datatype Error = BadRequest | ForbiddenAccess

  datatype Outcome = Outcome(table: Table, error: Option<Error>)

  /** A request to change a delegation; absent fields are not sent. */
  datatype Patch = Patch(authorized: Option<string>, start: Option<int>, end: Option<int>, files: bool, forceEnd: Option<bool>)

  /** Live is decided by the stage alone. */
  predicate Live(d: Delegation) {
    d.stage == RUNNING
  }

  /** Closed intervals that share an instant. */
  predicate Overlaps(d: Delegation, start: int, end: int) {
    d.start <= end && d.end >= start
  }

  ghost predicate NoAuthorOverlap(table: Table) {
    forall i, j | i in table && j in table && i != j && Live(table[i]) && Live(table[j]) && table[i].author == table[j].author ::
      !Overlaps(table[i], table[j].start, table[j].end)
  }

  ghost predicate NoDelegateOverlap(table: Table) {
    forall i, j | i in table && j in table && i != j && Live(table[i]) && Live(table[j])
                  && table[i].authorized == table[j].authorized ::
      !Overlaps(table[i], table[j].start, table[j].end)
  }

  /** Live delegations do not end before they start. */
  predicate Ordered(table: Table) {
    forall i | i in table && Live(table[i]) :: table[i].start <= table[i].end
  }

  /** Another live delegation by this author meets the interval. */
  predicate AuthorConflict(table: Table, author: string, start: int, end: int, except: Option<int>) {
    exists i :: i in table && Some(i) != except && Live(table[i]) && table[i].author == author && Overlaps(table[i], start, end)
  }

  predicate DelegateConflict(table: Table, authorized: string, start: int, end: int, except: Option<int>) {
    exists i :: i in table && Some(i) != except && Live(table[i]) && table[i].authorized == authorized
                && Overlaps(table[i], start, end)
  }

  // ---------- the calls ----------

  function Created(table: Table, id: int, user: string, authorized: string, start: Option<int>, end: Option<int>): Outcome {
    if user == "" || start.None? || end.None? || end.value < start.value || authorized == ""
       || AuthorConflict(table, user, start.value, end.value, None) || DelegateConflict(table, authorized, start.value, end.value, None)
    then Outcome(table, Some(BadRequest))
    else Outcome(table[id := Delegation(user, authorized, RUNNING, ACTIVE, start.value, end.value)], None)
  }

  predicate Empty(p: Patch) {
    p.authorized.None? && p.start.None? && p.end.None? && !p.files && p.forceEnd != Some(true)
  }

  /** The row an ordinary update writes; the author stays. */
  function Edited(d: Delegation, p: Patch): Delegation {
    d.(authorized := if p.authorized.Some? then p.authorized.value else d.authorized,
       start := if p.start.Some? then p.start.value else d.start,
       end := if p.end.Some? then p.end.value else d.end)
  }

  predicate ValidName(name: Option<string>) {
    name.Some? && !Blank(name.value) && |name.value| <= 64
  }

  /** What an ordinary edit is refused for. The author check looks for the editor's own delegations, not for the row's author's. */
  predicate BadEdit(table: Table, id: int, p: Patch, editor: string)
    requires id in table
  {
    var d := Edited(table[id], p);
    || d.end < d.start || !ValidName(p.authorized)
    || AuthorConflict(table, editor, d.start, d.end, Some(id))
    || DelegateConflict(table, d.authorized, d.start, d.end, Some(id))
  }

  function Updated(table: Table, id: int, p: Patch, editor: string, mayView: bool, now: int): Outcome {
    if editor == "" then Outcome(table, Some(BadRequest))
    else if !mayView then Outcome(table, Some(ForbiddenAccess))
    else if id !in table || !Live(table[id]) || Empty(p) then Outcome(table, Some(BadRequest))
    else if p.forceEnd == Some(true) then
      Outcome(table[id := table[id].(stage := FORCED, status := ACTIVE, end := now)], None)
    else if BadEdit(table, id, p, editor) then Outcome(table, Some(BadRequest))
    else Outcome(table[id := Edited(table[id], p)], None)
  }

  predicate Overdue(d: Delegation, now: int) {
    d.stage == RUNNING && d.status == ACTIVE && d.end < now
  }

  function ExpiredAt(table: Table, now: int): Table {
    map i | i in table :: if Overdue(table[i], now) then table[i].(stage := EXPIRED) else table[i]
  }

  /** Deletion marks the status and leaves the stage. */
  function Deleted(table: Table, ids: set<int>): Table {
    map i | i in table :: if i in ids then table[i].(status := DELETED) else table[i]
  }

  datatype Call =
    | Create(id: int, user: string, authorized: string, start: Option<int>, end: Option<int>)
    | Update(id: int, p: Patch, editor: string, mayView: bool, now: int)
    | Expire(now: int)
    | Delete(ids: set<int>)

  predicate Allowed(table: Table, call: Call) {
    call.Create? ==> call.id !in table
  }

  function Next(table: Table, call: Call): Outcome {
    match call
    case Create(id, user, authorized, start, end) => Created(table, id, user, authorized, start, end)
    case Update(id, p, editor, mayView, now) => Updated(table, id, p, editor, mayView, now)
    case Expire(now) => Outcome(ExpiredAt(table, now), None)
    case Delete(ids) => Outcome(Deleted(table, ids), None)
  }

  // ---------- what the checks keep ----------

  /** Writing a live row keeps authors' delegations apart exactly when none of that author meets it. */
  lemma WritingKeepsAuthors(table: Table, id: int, d: Delegation)
    requires NoAuthorOverlap(table)
    ensures NoAuthorOverlap(table[id := d]) <==> !Live(d) || !AuthorConflict(table, d.author, d.start, d.end, Some(id))
  {
    var after := table[id := d];
    if Live(d) && AuthorConflict(table, d.author, d.start, d.end, Some(id)) {
      var i :| i in table && Some(i) != Some(id) && Live(table[i]) && table[i].author == d.author && Overlaps(table[i], d.start, d.end);
      assert Live(after[i]) && Live(after[id]) && after[i].author == after[id].author;
    }
  }

  /** A creation that goes through keeps both rules. */
  lemma CreateKeeps(table: Table, id: int, user: string, authorized: string, start: Option<int>, end: Option<int>)
    requires id !in table
    ensures var after := Created(table, id, user, authorized, start, end).table;
            && (NoAuthorOverlap(table) ==> NoAuthorOverlap(after))
            && (NoDelegateOverlap(table) ==> NoDelegateOverlap(after))
            && (Ordered(table) ==> Ordered(after))
  {
  }

  /** An update always keeps delegates' delegations apart. */
  lemma UpdateKeepsDelegates(table: Table, id: int, p: Patch, editor: string, mayView: bool, now: int)
    requires NoDelegateOverlap(table)
    ensures NoDelegateOverlap(Updated(table, id, p, editor, mayView, now).table)
    ensures Ordered(table) ==> Ordered(Updated(table, id, p, editor, mayView, now).table)
  {
  }

  /** The edited row meets another live delegation of its own author. */
  predicate MeetsAuthorsOther(table: Table, id: int, p: Patch)
    requires id in table
  {
    var d := Edited(table[id], p);
    AuthorConflict(table, d.author, d.start, d.end, Some(id))
  }

  /** What a request to change a delegation is refused for. */
  predicate Refused(table: Table, id: int, p: Patch, editor: string, mayView: bool) {
    || editor == "" || !mayView || id !in table || !Live(table[id]) || Empty(p)
    || (p.forceEnd != Some(true) && BadEdit(table, id, p, editor))
  }

  /**
   An update keeps authors' delegations apart exactly when it is refused, ends the delegation (at whatever
   time), or the edited row meets no other of its author; the last is certain when the author is the editor.
   */
  lemma UpdateKeepsAuthorsExactlyWhen(table: Table, id: int, p: Patch, editor: string, mayView: bool, now: int)
    requires NoAuthorOverlap(table)
    ensures Updated(table, id, p, editor, mayView, now).error.Some? <==> Refused(table, id, p, editor, mayView)
    ensures NoAuthorOverlap(Updated(table, id, p, editor, mayView, now).table) <==>
              || Refused(table, id, p, editor, mayView)
              || p.forceEnd == Some(true)
              || !MeetsAuthorsOther(table, id, p)
    ensures !Refused(table, id, p, editor, mayView) && p.forceEnd != Some(true) && editor == table[id].author ==>
              !MeetsAuthorsOther(table, id, p)
  {
    if id in table {
      WritingKeepsAuthors(table, id, Edited(table[id], p));
      WritingKeepsAuthors(table, id, table[id].(stage := FORCED, status := ACTIVE, end := now));
    }
  }

  /** The edits that can bring an author's delegations together are excluded. */
  predicate Careful(table: Table, call: Call) {
    match call
    case Update(id, p, editor, mayView, now) =>
      id in table && p.forceEnd != Some(true) ==> editor == table[id].author || !MeetsAuthorsOther(table, id, p)
    case _ => true
  }

  ghost predicate Run(states: seq<Table>, calls: seq<Call>) {
    |states| == |calls| + 1
    && forall i | 0 <= i < |calls| :: Allowed(states[i], calls[i]) && states[i + 1] == Next(states[i], calls[i]).table
  }

  /** In every reachable state no two live delegations to one delegate overlap, whatever was forced to end and when. */
  lemma {:induction false} RunKeepsDelegates(states: seq<Table>, calls: seq<Call>, n: nat)
    requires Run(states, calls) && n <= |calls|
    requires NoDelegateOverlap(states[0]) && Ordered(states[0])
    ensures NoDelegateOverlap(states[n]) && Ordered(states[n])
  {
    if n > 0 {
      RunKeepsDelegates(states, calls, n - 1);
    }
  }

  /** With careful edits, nor do two live delegations of one author. */
  lemma {:induction false} CarefulRunKeepsAuthors(states: seq<Table>, calls: seq<Call>, n: nat)
    requires Run(states, calls) && n <= |calls|
    requires forall i | 0 <= i < n :: Careful(states[i], calls[i])
    requires NoAuthorOverlap(states[0])
    ensures NoAuthorOverlap(states[n])
  {
    if n > 0 {
      CarefulRunKeepsAuthors(states, calls, n - 1);
    }
  }

  /** From the empty table: someone else's edit brings two delegations of one author together. */
  lemma OthersEditOverlaps()
    ensures var calls := [
              Create(1, "author", "a", Some(1), Some(2)),
              Create(2, "author", "b", Some(5), Some(6)),
              Update(2, Patch(Some("b"), Some(2), None, false, None), "editor", true, 0)];
            var s1 := Next(map[], calls[0]).table;
            var s2 := Next(s1, calls[1]).table;
            !NoAuthorOverlap(Next(s2, calls[2]).table) && NoAuthorOverlap(s2) && Next(s2, calls[2]).error.None?
  {
    var s1 := Next(map[], Create(1, "author", "a", Some(1), Some(2))).table;
    var s2 := Next(s1, Create(2, "author", "b", Some(5), Some(6))).table;
    assert s2 == map[1 := Delegation("author", "a", RUNNING, ACTIVE, 1, 2), 2 := Delegation("author", "b", RUNNING, ACTIVE, 5, 6)];
    assert !White('b') && "b"[0] == 'b';
    var s3 := Next(s2, Update(2, Patch(Some("b"), Some(2), None, false, None), "editor", true, 0)).table;
    assert s3[2] == Delegation("author", "b", RUNNING, ACTIVE, 2, 6);
    assert 1 in s3 && 2 in s3 && Live(s3[1]) && Live(s3[2]) && s3[1].author == s3[2].author && Overlaps(s3[1], 2, 6);
  }

  // ---------- what a call stores, field by field ----------

  predicate Between(start: int, t: int, end: int) {
    start <= t <= end
  }

  /** Some instant is both in the interval and in that of the delegation. */
  ghost predicate Meets(d: Delegation, start: int, end: int) {
    exists t :: Between(start, t, end) && Between(d.start, t, d.end)
  }

  /** Intervals that do not end before they start overlap exactly when they share an instant. */
  lemma OverlapsExactlyWhenMeets(d: Delegation, start: int, end: int)
    requires d.start <= d.end && start <= end
    ensures Overlaps(d, start, end) <==> Meets(d, start, end)
  {
    var t := if start <= d.start then d.start else start;
    assert Overlaps(d, start, end) ==> Between(start, t, end) && Between(d.start, t, d.end);
  }

  /** A running delegation besides `except`, by this author or to this delegate, that shares an instant with the interval. */
  ghost predicate Clashes(table: Table, author: Option<string>, authorized: Option<string>, start: int, end: int, except: Option<int>) {
    exists i :: i in table && Some(i) != except && table[i].stage == 1 && Meets(table[i], start, end)
                && (author == Some(table[i].author) || authorized == Some(table[i].authorized))
  }

  lemma ClashesExactly(table: Table, author: string, authorized: string, start: int, end: int, except: Option<int>)
    requires Ordered(table) && start <= end
    ensures Clashes(table, Some(author), Some(authorized), start, end, except) <==>
              AuthorConflict(table, author, start, end, except) || DelegateConflict(table, authorized, start, end, except)
  {
    forall i | i in table && Live(table[i]) ensures Overlaps(table[i], start, end) <==> Meets(table[i], start, end) {
      OverlapsExactlyWhenMeets(table[i], start, end);
    }
    if AuthorConflict(table, author, start, end, except) {
      var i :| i in table && Some(i) != except && Live(table[i]) && table[i].author == author && Overlaps(table[i], start, end);
      assert Meets(table[i], start, end);
    }
    if DelegateConflict(table, authorized, start, end, except) {
      var i :| i in table && Some(i) != except && Live(table[i]) && table[i].authorized == authorized && Overlaps(table[i], start, end);
      assert Meets(table[i], start, end);
    }
  }

  /**
   A creation needs a user, a delegate, both ends in order, and no running delegation by the user or to
   the delegate at any instant between. It stores just these, running and active.
   */
  lemma StoredAfterCreation(table: Table, id: int, user: string, authorized: string, start: Option<int>, end: Option<int>)
    requires Ordered(table) && id !in table
    ensures var out := Created(table, id, user, authorized, start, end);
            && (out.error == None <==>
                  && user != "" && authorized != "" && start.Some? && end.Some? && start.value <= end.value
                  && !Clashes(table, Some(user), Some(authorized), start.value, end.value, None))
            && out.table == (if out.error == None
                             then table[id := Delegation(user, authorized, 1, 1, start.value, end.value)] else table)
  {
    if start.Some? && end.Some? && start.value <= end.value {
      ClashesExactly(table, user, authorized, start.value, end.value, None);
    }
  }

  /** The fields sent, and the stored ones for the others. */
  ghost predicate EditedAs(before: Delegation, p: Patch, after: Delegation) {
    && after.author == before.author && after.stage == before.stage && after.status == before.status
    && Some(after.authorized) == p.authorized
    && after.start == (match p.start case Some(t) => t case None => before.start)
    && after.end == (match p.end case Some(t) => t case None => before.end)
  }

  /**
   An accepted edit stores each field sent and keeps the others, author, stage and status among them; an
   accepted forced end stores the present as the end and the stage of ended ones. No other row changes.
   */
  lemma StoredAfterUpdate(table: Table, id: int, p: Patch, editor: string, mayView: bool, now: int)
    requires Updated(table, id, p, editor, mayView, now).error == None
    ensures var after := Updated(table, id, p, editor, mayView, now).table;
            && id in table && table[id].stage == 1 && mayView && editor != ""
            && after.Keys == table.Keys && (forall i | i in table && i != id :: after[i] == table[i])
            && (p.forceEnd == Some(true) ==>
                  && after[id].author == table[id].author && after[id].authorized == table[id].authorized
                  && after[id].start == table[id].start && after[id].end == now
                  && after[id].stage == 2 && after[id].status == 1)
            && (p.forceEnd != Some(true) ==> EditedAs(table[id], p, after[id]))
  {
  }

  /**
   Before all else an update needs an editor, leave to see the row, a running row and something sent; an
   edit besides that a delegate's name of at most 64 characters, not all white, ends in order, no other
   running delegation of the editor, and none to the delegate, at any instant between them.
   */
  lemma UpdateAcceptedExactlyWhen(table: Table, id: int, p: Patch, editor: string, mayView: bool, now: int)
    requires Ordered(table)
    ensures Updated(table, id, p, editor, mayView, now).error == None <==>
              && editor != "" && mayView && id in table && table[id].stage == 1
              && (p.forceEnd == Some(true) ||
                  (p.authorized.Some? && !Blank(p.authorized.value) && |p.authorized.value| <= 64
                   && var start := match p.start case Some(t) => t case None => table[id].start;
                      var end := match p.end case Some(t) => t case None => table[id].end;
                      start <= end && !Clashes(table, Some(editor), p.authorized, start, end, Some(id))))
    ensures Updated(table, id, p, editor, mayView, now).error != None ==> Updated(table, id, p, editor, mayView, now).table == table
    ensures Updated(table, id, p, editor, mayView, now).error == Some(ForbiddenAccess) <==> editor != "" && !mayView
  {
    if id in table && p.authorized.Some? {
      var start := match p.start case Some(t) => t case None => table[id].start;
      var end := match p.end case Some(t) => t case None => table[id].end;
      if start <= end {
        ClashesExactly(table, editor, p.authorized.value, start, end, Some(id));
      }
    }
  }

  /** Expiry and deletion change one column each, of exactly the rows meant. */
  lemma StoredAfterSweeps(table: Table, now: int, ids: set<int>, i: int)
    requires i in table
    ensures ExpiredAt(table, now).Keys == table.Keys == Deleted(table, ids).Keys
    ensures ExpiredAt(table, now)[i] ==
            if table[i].stage == 1 && table[i].status == 1 && table[i].end < now then table[i].(stage := 0) else table[i]
    ensures Deleted(table, ids)[i] == if i in ids then table[i].(status := 3) else table[i]
  {
  }

  // ---------- who acts for whom ----------

  /** In force at an instant, as the look-ups see it. */
  predicate InForce(d: Delegation, now: int) {
    Live(d) && d.start <= now <= d.end
  }

  /** At any instant each author has at most one delegate and each delegate at most one author. */
  lemma AtMostOneInForce(table: Table, now: int, i: int, j: int)
    requires i in table && table[i].stage == 1 && table[i].start <= now <= table[i].end
    requires j in table && table[j].stage == 1 && table[j].start <= now <= table[j].end
    ensures NoAuthorOverlap(table) && table[i].author == table[j].author ==> i == j
    ensures NoDelegateOverlap(table) && table[i].authorized == table[j].authorized ==> i == j
  {
  }

  /** A deleted delegation stays in force, never expires and keeps blocking: only its status changes. */
  lemma DeletedStaysInForce(table: Table, ids: set<int>, i: int, now: int, later: int)
    requires i in table && i in ids && Live(table[i])
    ensures var after := ExpiredAt(Deleted(table, ids), later);
            && after[i].stage == 1 && after[i].start == table[i].start && after[i].end == table[i].end
            && (InForce(after[i], now) <==> table[i].start <= now <= table[i].end)
            && forall start, end | Overlaps(table[i], start, end) :: AuthorConflict(after, table[i].author, start, end, None)
  {
  }

  /** Expiry ends exactly the active delegations past their end, none of which is in force any more. */
  lemma ExpiryEndsOnlyThePast(table: Table, now: int, later: int, i: int)
    requires i in table && now <= later
    ensures ExpiredAt(table, now)[i] != table[i] <==> Overdue(table[i], now)
    ensures InForce(ExpiredAt(table, now)[i], later) <==> InForce(table[i], later)
  {
  }

  // ---------- the service ----------

  class DelegationService {
    var table: Table

    constructor ()
      ensures table == map[]
    {
      table := map[];
    }

    method CreateDelegation(id: int, user: string, authorized: string, start: Option<int>, end: Option<int>)
        returns (error: Option<Error>)
      requires id !in table
      modifies this
      ensures Outcome(table, error) == Next(old(table), Create(id, user, authorized, start, end))
    {
      if user == "" || start.None? || end.None? || end.value < start.value || authorized == "" {
        return Some(BadRequest);
      }
      if AuthorConflict(table, user, start.value, end.value, None) {
        return Some(BadRequest);
      }
      if DelegateConflict(table, authorized, start.value, end.value, None) {
        return Some(BadRequest);
      }
      table := table[id := Delegation(user, authorized, RUNNING, ACTIVE, start.value, end.value)];
      error := None;
    }

    method UpdateDelegation(id: int, p: Patch, editor: string, mayView: bool, now: int) returns (error: Option<Error>)
      modifies this
      ensures Outcome(table, error) == Next(old(table), Update(id, p, editor, mayView, now))
    {
      if editor == "" {
        return Some(BadRequest);
      }
      if !mayView {
        return Some(ForbiddenAccess);
      }
      if id !in table || table[id].stage != RUNNING || Empty(p) {
        return Some(BadRequest);
      }
      if p.forceEnd == Some(true) {
        table := table[id := table[id].(stage := FORCED, status := ACTIVE, end := now)];
        return None;
      }
      var current := table[id];
      var newStart := if p.start.Some? then p.start.value else current.start;
      var newEnd := if p.end.Some? then p.end.value else current.end;
      if newEnd < newStart || !ValidName(p.authorized) {
        return Some(BadRequest);
      }
      if AuthorConflict(table, editor, newStart, newEnd, Some(id)) {
        return Some(BadRequest);
      }
      if DelegateConflict(table, p.authorized.value, newStart, newEnd, Some(id)) {
        return Some(BadRequest);
      }
      table := table[id := current.(authorized := p.authorized.value, start := newStart, end := newEnd)];
      error := None;
    }

    method UpdateExpired(now: int) returns (updated: nat)
      modifies this
      ensures table == Next(old(table), Expire(now)).table
      ensures updated == |set i | i in old(table) && Overdue(old(table)[i], now)|
    {
      var overdue := set i | i in table && Overdue(table[i], now);
      table := map i | i in table :: if i in overdue then table[i].(stage := EXPIRED) else table[i];
      updated := |overdue|;
    }

    /** A list of no identifiers is refused. */
    method DeleteDelegations(ids: set<int>) returns (error: Option<Error>, deleted: nat)
      modifies this
      ensures error == if ids == {} then Some(BadRequest) else None
      ensures table == if ids == {} then old(table) else Next(old(table), Delete(ids)).table
      ensures deleted == |ids * old(table).Keys|
    {
      deleted := 0;
      if ids == {} {
        return Some(BadRequest), 0;
      }
      var found := set i | i in table && i in ids;
      assert found == ids * table.Keys;
      table := map i | i in table :: if i in found then table[i].(status := DELETED) else table[i];
      error, deleted := None, |found|;
    }
  }
}
