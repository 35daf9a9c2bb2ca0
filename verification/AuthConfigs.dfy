/**
 Authentication configurations: of the live ones, at most one is in use
 (backend_nest/src/auth-config/auth-config.service.ts).
 */
module AuthConfigs {
  import opened Positions
  import opened Prelude

  type Id = string

  /** `live` is status 1, not live is status 3. Types are compared as the column's collation does. */
  datatype Config = Config(authType: string, active: bool, live: bool, config: string)

  type Table = map<Id, Config>

  /** The fields of a request; absent ones keep their value. */
  datatype Payload = Payload(authType: Option<string>, active: Option<bool>, config: Option<string>)

  datatype Error = NotFound | BadRequest | TypeExists

  /** There is no transaction: a failing call leaves what it wrote before failing. */
  datatype Outcome = Outcome(table: Table, error: Option<Error>)

  /** The configurations in use. */
  function Active(table: Table): set<Id> {
    set id | id in table && table[id].live && table[id].active
  }

  ghost predicate AtMostOneActive(table: Table) {
    forall a, b | a in Active(table) && b in Active(table) :: a == b
  }

  /** The unique column: deleted rows hold their type too. */
  ghost predicate TypesUnique(table: Table) {
    forall a, b | a in table && b in table && table[a].authType == table[b].authType :: a == b
  }

  /** Does a row other than `id` hold this type? */
  predicate TypeHeld(table: Table, id: Id, authType: string) {
    exists other :: other in table && other != id && table[other].authType == authType
  }

  function LiveOfType(table: Table, authType: string): set<Id> {
    set id | id in table && table[id].live && table[id].authType == authType
  }

  function LiveBesides(table: Table, id: Id): set<Id> {
    set other | other in table && other != id && table[other].live
  }

  // ---------- the calls ----------

  /** Turns off every live configuration but the kept ones. */
  function Deactivated(table: Table, kept: set<Id>): Table {
    map id | id in table :: if table[id].live && id !in kept then table[id].(active := false) else table[id]
  }

  function Patched(row: Config, payload: Payload): Config {
    Config(if payload.authType.Some? then payload.authType.value else row.authType,
           if payload.active.Some? then payload.active.value else row.active,
           row.live,
           if payload.config.Some? then payload.config.value else row.config)
  }

  function Updated(table: Table, id: Id, payload: Payload): Outcome {
    if id !in table || !table[id].live then Outcome(table, Some(NotFound))
    else
      var mid := if payload.active == Some(true) then Deactivated(table, {id}) else table;
      var row := Patched(mid[id], payload);
      if TypeHeld(mid, id, row.authType) then Outcome(mid, Some(TypeExists))
      else Outcome(mid[id := row], None)
  }

  function NewRow(authType: string, payload: Payload): Config {
    Config(authType, payload.active == Some(true), true, if payload.config.Some? then payload.config.value else "{}")
  }

  function Inserted(table: Table, id: Id, authType: string, payload: Payload): Outcome {
    var mid := if payload.active == Some(true) then Deactivated(table, {}) else table;
    if TypeHeld(mid, id, authType) then Outcome(mid, Some(TypeExists))
    else Outcome(mid[id := NewRow(authType, payload)], None)
  }

  function SoftDeleted(table: Table, id: Id, other: Option<Id>): Outcome
    requires other.Some? ==> other.value in table
  {
    if id !in table || !table[id].live then Outcome(table, Some(NotFound))
    else
      var mid := if table[id].active && other.Some? then table[other.value := table[other.value].(active := true)] else table;
      Outcome(mid[id := mid[id].(live := false)], None)
  }

  function Selected(table: Table, ids: set<Id>): set<Id> {
    set id | id in ids && id in table && table[id].live
  }

  function BulkDeleted(table: Table, ids: set<Id>): Outcome {
    if Selected(table, ids) * Active(table) != {} then Outcome(table, Some(BadRequest))
    else Outcome(map id | id in table :: if id in ids && table[id].live then table[id].(live := false) else table[id], None)
  }

  /**
   A call with what the database answered to it: the row of the same type for a creation, the row
   to activate instead for a deletion.
   */
  datatype Call =
    | Create(newId: Id, authType: string, payload: Payload, existing: Option<Id>)
    | Update(id: Id, payload: Payload)
    | SoftDelete(id: Id, other: Option<Id>)
    | BulkDelete(ids: set<Id>)

  /** The answers are ones the database can give, and new identifiers are new. */
  ghost predicate Answered(table: Table, call: Call) {
    match call
    case Create(newId, authType, payload, existing) =>
      && newId !in table && payload.authType == Some(authType)
      && (if existing.None? then LiveOfType(table, authType) == {} else existing.value in LiveOfType(table, authType))
    case SoftDelete(id, other) =>
      if other.None? then LiveBesides(table, id) == {} else other.value in LiveBesides(table, id)
    case _ => true
  }

  function Next(table: Table, call: Call): Outcome
    requires Answered(table, call)
  {
    match call
    case Create(newId, authType, payload, existing) =>
      if existing.Some? then Updated(table, existing.value, payload) else Inserted(table, newId, authType, payload)
    case Update(id, payload) => Updated(table, id, payload)
    case SoftDelete(id, other) => SoftDeleted(table, id, other)
    case BulkDelete(ids) => BulkDeleted(table, ids)
  }

  // ---------- who is in use afterwards ----------

  /** The configuration a call acts on with a payload. */
  function Target(call: Call): Id
    requires call.Create? || call.Update?
  {
    if call.Update? then call.id else if call.existing.Some? then call.existing.value else call.newId
  }

  lemma DeactivatedLeaves(table: Table, kept: set<Id>)
    ensures Active(Deactivated(table, kept)) == Active(table) * kept
    ensures Deactivated(table, kept).Keys == table.Keys
    ensures forall id | id in table :: Deactivated(table, kept)[id].authType == table[id].authType
    ensures forall id, authType :: TypeHeld(Deactivated(table, kept), id, authType) <==> TypeHeld(table, id, authType)
  {
  }

  /** After an update, by its flag and whether its type is held elsewhere. */
  lemma ActiveAfterUpdate(table: Table, id: Id, payload: Payload)
    ensures var out := Updated(table, id, payload);
            Active(out.table) ==
              if out.error == Some(NotFound) || payload.active.None? then Active(table)
              else if out.error.Some? then (if payload.active.value then Active(table) * {id} else Active(table))
              else if payload.active.value then {id} else Active(table) - {id}
  {
  }

  lemma ActiveAfterInsert(table: Table, id: Id, authType: string, payload: Payload)
    requires id !in table
    ensures var out := Inserted(table, id, authType, payload);
            Active(out.table) ==
              if payload.active != Some(true) then Active(table)
              else if out.error.Some? then {} else {id}
  {
  }

  lemma ActiveAfterDelete(table: Table, id: Id, other: Option<Id>)
    requires Answered(table, SoftDelete(id, other))
    ensures Active(SoftDeleted(table, id, other).table) ==
              if id !in Active(table) then Active(table)
              else Active(table) - {id} + (if other.Some? then {other.value} else {})
  {
  }

  /** Bulk deletion never touches a configuration in use: it refuses the whole request instead. */
  lemma BulkDeleteKeepsActive(table: Table, ids: set<Id>)
    ensures var out := BulkDeleted(table, ids);
            && Active(out.table) == Active(table)
            && (out.error.Some? <==> exists id :: id in ids && id in Active(table))
            && (out.error.Some? ==> out.table == table)
            && (out.error.None? ==>
                  && out.table.Keys == table.Keys
                  && forall id | id in table ::
                       && out.table[id].(live := true) == table[id].(live := true)
                       && (out.table[id].live <==> table[id].live && id !in ids))
  {
    var both := Selected(table, ids) * Active(table);
    if id :| id in ids && id in Active(table) {
      assert id in both;
    }
    HasText(both);
  }

  /** Every call, failing ones included, keeps the column unique and at most one configuration in use. */
  lemma StepKeepsInvariants(table: Table, call: Call)
    requires AtMostOneActive(table) && TypesUnique(table) && Answered(table, call)
    ensures AtMostOneActive(Next(table, call).table) && TypesUnique(Next(table, call).table)
  {
    match call
    case Create(newId, authType, payload, existing) =>
      if existing.Some? {
        UpdateKeepsInvariants(table, existing.value, payload);
      } else {
        ActiveAfterInsert(table, newId, authType, payload);
        DeactivatedLeaves(table, {});
      }
    case Update(id, payload) => UpdateKeepsInvariants(table, id, payload);
    case SoftDelete(id, other) => ActiveAfterDelete(table, id, other);
    case BulkDelete(ids) => BulkDeleteKeepsActive(table, ids);
  }

  lemma UpdateKeepsInvariants(table: Table, id: Id, payload: Payload)
    requires AtMostOneActive(table) && TypesUnique(table)
    ensures AtMostOneActive(Updated(table, id, payload).table) && TypesUnique(Updated(table, id, payload).table)
  {
    ActiveAfterUpdate(table, id, payload);
    DeactivatedLeaves(table, {id});
  }

  ghost predicate Run(states: seq<Table>, calls: seq<Call>) {
    && |states| == |calls| + 1
    && forall i | 0 <= i < |calls| :: Answered(states[i], calls[i]) && states[i + 1] == Next(states[i], calls[i]).table
  }

  /** In every reachable state at most one live configuration is in use. */
  lemma {:induction false} RunKeepsInvariants(states: seq<Table>, calls: seq<Call>, n: nat)
    requires Run(states, calls) && n <= |calls|
    requires AtMostOneActive(states[0]) && TypesUnique(states[0])
    ensures AtMostOneActive(states[n]) && TypesUnique(states[n])
  {
    if n > 0 {
      RunKeepsInvariants(states, calls, n - 1);
      StepKeepsInvariants(states[n - 1], calls[n - 1]);
    }
  }

  /** What a caller can check beforehand: the calls after which nothing is in use any more. */
  ghost predicate LosesActive(table: Table, call: Call) {
    match call
    case Create(newId, authType, payload, existing) =>
      if existing.Some? then UpdateLosesActive(table, existing.value, payload)
      else payload.active == Some(true) && TypeHeld(table, newId, authType)
    case Update(id, payload) => UpdateLosesActive(table, id, payload)
    case SoftDelete(id, other) => id in Active(table) && LiveBesides(table, id) == {}
    case BulkDelete(_) => false
  }

  /** Turning on an unused configuration under a held type, or turning the used one off. */
  predicate UpdateLosesActive(table: Table, id: Id, payload: Payload) {
    && id in table && table[id].live && payload.active.Some?
    && var held := TypeHeld(table, id, Patched(table[id], payload).authType);
       if payload.active.value then held && id !in Active(table) else !held && id in Active(table)
  }

  /** While one configuration is in use, a call leaves none in use exactly in those cases. */
  lemma LosesActiveExactlyWhen(table: Table, call: Call)
    requires AtMostOneActive(table) && Active(table) != {} && Answered(table, call)
    ensures Active(Next(table, call).table) == {} <==> LosesActive(table, call)
  {
    HasText(Active(table));
    match call
    case Create(newId, authType, payload, existing) =>
      DeactivatedLeaves(table, {});
      if existing.Some? {
        UpdateLoses(table, existing.value, payload);
      } else {
        ActiveAfterInsert(table, newId, authType, payload);
      }
    case Update(id, payload) => UpdateLoses(table, id, payload);
    case SoftDelete(id, other) => ActiveAfterDelete(table, id, other);
    case BulkDelete(ids) => BulkDeleteKeepsActive(table, ids);
  }

  lemma UpdateLoses(table: Table, id: Id, payload: Payload)
    requires AtMostOneActive(table) && Active(table) != {}
    ensures Active(Updated(table, id, payload).table) == {} <==> UpdateLosesActive(table, id, payload)
  {
    ActiveAfterUpdate(table, id, payload);
    DeactivatedLeaves(table, {id});
    HasText(Active(table));
  }

  /** Deleting the configuration in use puts exactly one other in use whenever another is live. */
  lemma DeletingTheActiveOne(table: Table, id: Id, other: Option<Id>)
    requires AtMostOneActive(table) && id in Active(table) && Answered(table, SoftDelete(id, other))
    ensures var after := SoftDeleted(table, id, other).table;
            && (LiveBesides(table, id) != {} <==> other.Some?)
            && Active(after) == (if other.Some? then {other.value} else {})
            && (other.Some? ==> other.value in LiveBesides(table, id))
            && LiveBesides(after, id) == LiveBesides(table, id) && !after[id].live
  {
    ActiveAfterDelete(table, id, other);
  }

  /** Creating a configuration in use under a type only a deleted row holds fails, and turns the used one off. */
  lemma CreateUnderDeletedType(table: Table, deleted: Id, call: Call)
    requires call.Create? && Answered(table, call) && call.payload.active == Some(true)
    requires deleted in table && !table[deleted].live && table[deleted].authType == call.authType
    requires TypesUnique(table)
    ensures Next(table, call).error == Some(TypeExists) && Active(Next(table, call).table) == {}
  {
    ActiveAfterInsert(table, call.newId, call.authType, call.payload);
    DeactivatedLeaves(table, {});
    assert TypeHeld(table, call.newId, call.authType);
  }

  // ---------- what a call stores, field by field ----------

  /** The same row, turned off. */
  ghost predicate TurnedOff(before: Config, after: Config) {
    && !after.active && after.authType == before.authType && after.live == before.live && after.config == before.config
  }

  /** Every live row besides `id` is turned off, if any is to be, and no other row changes. */
  ghost predicate OthersAfter(table: Table, after: Table, id: Id, off: bool) {
    forall i | i in table && i != id ::
      i in after && if off && table[i].live then TurnedOff(table[i], after[i]) else after[i] == table[i]
  }

  ghost predicate HeldByOther(table: Table, id: Id, authType: string) {
    exists i :: i in table && i != id && table[i].authType == authType
  }

  lemma TypeHeldExactly(table: Table, id: Id, authType: string, kept: set<Id>)
    ensures TypeHeld(table, id, authType) <==> HeldByOther(table, id, authType)
    ensures TypeHeld(Deactivated(table, kept), id, authType) <==> HeldByOther(table, id, authType)
  {
    DeactivatedLeaves(table, kept);
  }

  /**
   An update finds a live row or nothing; it is refused when another row, deleted or not, holds the type
   the row would have. Accepted, it stores each field sent and keeps the others. A flag sent as true turns
   all other live rows off, also when the update is refused after that.
   */
  lemma StoredAfterUpdate(table: Table, id: Id, payload: Payload)
    ensures var out := Updated(table, id, payload);
            && (out.error == Some(NotFound) <==> !(id in table && table[id].live))
            && (out.error == Some(TypeExists) <==>
                  && id in table && table[id].live
                  && HeldByOther(table, id, match payload.authType case Some(t) => t case None => table[id].authType))
            && out.error != Some(BadRequest) && out.table.Keys == table.Keys
            && OthersAfter(table, out.table, id, id in table && table[id].live && payload.active == Some(true))
            && (out.error != None && id in table ==> out.table[id] == table[id])
            && (out.error == None ==>
                  && out.table[id].authType == (match payload.authType case Some(t) => t case None => table[id].authType)
                  && out.table[id].active == (match payload.active case Some(a) => a case None => table[id].active)
                  && out.table[id].config == (match payload.config case Some(c) => c case None => table[id].config)
                  && out.table[id].live)
  {
    if id in table {
      TypeHeldExactly(table, id, Patched(table[id], payload).authType, {id});
    }
  }

  /** A creation stores a live row with the configuration sent, or "{}", in use exactly when sent so. */
  lemma StoredAfterCreation(table: Table, id: Id, authType: string, payload: Payload)
    requires id !in table
    ensures var out := Inserted(table, id, authType, payload);
            && (out.error == None <==> !HeldByOther(table, id, authType))
            && (out.error != None ==> out.error == Some(TypeExists))
            && out.table.Keys == table.Keys + (if out.error == None then {id} else {})
            && OthersAfter(table, out.table, id, payload.active == Some(true))
            && (out.error == None ==>
                  && out.table[id].authType == authType && out.table[id].live
                  && (out.table[id].active <==> payload.active == Some(true))
                  && out.table[id].config == (match payload.config case Some(c) => c case None => "{}"))
  {
    TypeHeldExactly(table, id, authType, {});
  }

  /** A live configuration of the type is updated instead; only without one is a row created. */
  lemma CreationUpdatesTheLiveOne(table: Table, call: Call)
    requires call.Create? && Answered(table, call)
    ensures call.existing.Some? <==> exists i :: i in table && table[i].live && table[i].authType == call.authType
    ensures call.existing.Some? ==>
              && call.existing.value in table && table[call.existing.value].live
              && table[call.existing.value].authType == call.authType
              && Next(table, call) == Updated(table, call.existing.value, call.payload)
    ensures call.existing.None? ==> Next(table, call) == Inserted(table, call.newId, call.authType, call.payload)
  {
    if i :| i in table && table[i].live && table[i].authType == call.authType {
      assert i in LiveOfType(table, call.authType);
    }
  }

  /** A deletion hides a live row, and turns another live one on if the row was in use and there is one. */
  lemma StoredAfterDeletion(table: Table, id: Id, other: Option<Id>)
    requires Answered(table, SoftDelete(id, other))
    ensures other.Some? <==> exists i :: i in table && i != id && table[i].live
    ensures other.Some? ==> other.value in table && other.value != id && table[other.value].live
    ensures var out := SoftDeleted(table, id, other);
            && (out.error == None <==> id in table && table[id].live) && (out.error != None ==> out.error == Some(NotFound))
            && out.table.Keys == table.Keys
            && forall i | i in table ::
                 out.table[i] ==
                   if out.error == None && i == id then table[i].(live := false)
                   else if out.error == None && table[id].active && other == Some(i) then table[i].(active := true)
                   else table[i]
  {
    if i :| i in table && i != id && table[i].live {
      assert i in LiveBesides(table, id);
    }
  }

  /** A bulk deletion is refused when it names the one in use; else it hides the named rows and changes no other. */
  lemma StoredAfterBulkDeletion(table: Table, ids: set<Id>)
    ensures var out := BulkDeleted(table, ids);
            && (out.error == Some(BadRequest) <==> exists i :: i in ids && i in table && table[i].live && table[i].active)
            && (out.error == None || out.error == Some(BadRequest)) && out.table.Keys == table.Keys
            && forall i | i in table ::
                 out.table[i] == if out.error == None && i in ids then table[i].(live := false) else table[i]
  {
    BulkDeleteKeepsActive(table, ids);
    assert forall i :: i in Active(table) <==> i in table && table[i].live && table[i].active;
    forall i | i in table && i in ids && !table[i].live ensures table[i].(live := false) == table[i] {
    }
  }

  /** The positions of texts that are not blank and have no live row. */
  ghost predicate Unmet(table: Table, ids: seq<Id>, at: seq<nat>) {
    forall k: nat :: k in at <==> k < |ids| && !Blank(ids[k]) && !(ids[k] in table && table[ids[k]].live)
  }

  /** What is not found is reported in the order sent, each time it is sent. */
  lemma {:induction false} MissingInOrder(table: Table, ids: seq<Id>) returns (at: seq<nat>)
    ensures Increasing(at) && Unmet(table, ids, at)
    ensures Picks(Missing(table, ids), ids, at)
  {
    at := [];
    if ids != [] {
      var n := |ids| - 1;
      var front := MissingInOrder(table, ids[..n]);
      at := if !Blank(ids[n]) && !(ids[n] in table && table[ids[n]].live) then front + [n] else front;
      OneMoreUnmet(table, ids, front);
      PickLast(Missing(table, ids[..n]), ids, front);
      assert Missing(table, ids[..n]) + [] == Missing(table, ids[..n]);
    }
  }

  lemma OneMoreUnmet(table: Table, ids: seq<Id>, front: seq<nat>)
    requires ids != [] && Increasing(front) && Unmet(table, ids[..|ids| - 1], front)
    ensures var n := |ids| - 1;
            var at := if !Blank(ids[n]) && !(ids[n] in table && table[ids[n]].live) then front + [n] else front;
            Increasing(at) && Unmet(table, ids, at)
  {
    var n := |ids| - 1;
    forall k: nat ensures k in front <==> k < n && !Blank(ids[k]) && !(ids[k] in table && table[ids[k]].live) {
      assert k < n ==> ids[..n][k] == ids[k];
    }
    OneMore(front, n);
  }

  // ---------- the service ----------

  class AuthConfigService {
    var table: Table

    constructor ()
      ensures table == map[]
    {
      table := map[];
    }

    method FindOne(candidates: set<Id>) returns (found: Option<Id>)
      ensures if candidates == {} then found == None else found.Some? && found.value in candidates
    {
      HasText(candidates);
      if candidates == {} {
        return None;
      }
      var id :| id in candidates;
      found := Some(id);
    }

    /** Creates, or updates the live configuration of that type. */
    method Create(newId: Id, authType: string, payload: Payload) returns (error: Option<Error>, existing: Option<Id>)
      requires newId !in table && payload.authType == Some(authType)
      modifies this
      ensures Answered(old(table), Call.Create(newId, authType, payload, existing))
      ensures Outcome(table, error) == Next(old(table), Call.Create(newId, authType, payload, existing))
    {
      existing := FindOne(LiveOfType(table, authType));
      if existing.Some? {
        error := Update(existing.value, payload);
        return;
      }
      if payload.active == Some(true) {
        table := Deactivated(table, {});
      }
      if TypeHeld(table, newId, authType) {
        return Some(TypeExists), existing;
      }
      table := table[newId := NewRow(authType, payload)];
      error := None;
    }

    method Update(id: Id, payload: Payload) returns (error: Option<Error>)
      modifies this
      ensures Outcome(table, error) == Next(old(table), Call.Update(id, payload))
    {
      if id !in table || !table[id].live {
        return Some(NotFound);
      }
      if payload.active == Some(true) {
        table := Deactivated(table, {id});
      }
      var row := Patched(table[id], payload);
      if TypeHeld(table, id, row.authType) {
        return Some(TypeExists);
      }
      table := table[id := row];
      error := None;
    }

    method SoftDelete(id: Id) returns (error: Option<Error>, other: Option<Id>)
      modifies this
      ensures Answered(old(table), Call.SoftDelete(id, other))
      ensures Outcome(table, error) == Next(old(table), Call.SoftDelete(id, other))
    {
      other := FindOne(LiveBesides(table, id));
      if id !in table || !table[id].live {
        return Some(NotFound), other;
      }
      if table[id].active {
        if other.Some? {
          table := table[other.value := table[other.value].(active := true)];
        }
      }
      table := table[id := table[id].(live := false)];
      error := None;
    }

    /** The non-blank identifiers, and those of them without a live row. */
    method CleanIds(ids: seq<Id>) returns (clean: set<Id>, failed: seq<Id>)
      ensures clean == set id | id in ids && !Blank(id)
      ensures failed == Missing(table, ids)
    {
      clean, failed := {}, [];
      var i := 0;
      while i < |ids|
        invariant 0 <= i <= |ids|
        invariant clean == set id | id in ids[..i] && !Blank(id)
        invariant failed == Missing(table, ids[..i])
      {
        assert ids[..i + 1][..i] == ids[..i] && ids[..i + 1] == ids[..i] + [ids[i]];
        if !Blank(ids[i]) {
          clean := clean + {ids[i]};
          if ids[i] !in table || !table[ids[i]].live {
            failed := failed + [ids[i]];
          }
        }
        i := i + 1;
      }
      assert ids[..|ids|] == ids;
    }

    /** Blank identifiers are dropped; identifiers without a live row are reported in order. */
    method BulkSoftDelete(ids: seq<Id>) returns (error: Option<Error>, deleted: nat, failed: seq<Id>)
      modifies this
      ensures var clean := set id | id in ids && !Blank(id);
              && (clean == {} ==> error == Some(BadRequest) && table == old(table))
              && (clean != {} ==> Outcome(table, error) == Next(old(table), Call.BulkDelete(clean)))
              && (error.None? ==>
                    && deleted == |set id | id in ids && !Blank(id) && id in old(table) && old(table)[id].live|
                    && failed == Missing(old(table), ids))
    {
      deleted := 0;
      var cleanIds;
      cleanIds, failed := CleanIds(ids);
      if cleanIds == {} {
        return Some(BadRequest), 0, failed;
      }
      var found := Selected(table, cleanIds);
      FoundExactly(table, ids, cleanIds);
      if found == {} {
        return None, 0, failed;
      }
      if found * Active(table) != {} {
        return Some(BadRequest), 0, failed;
      }
      table := map id | id in table :: if id in found then table[id].(live := false) else table[id];
      error, deleted := None, |found|;
    }
  }

  lemma FoundExactly(table: Table, ids: seq<Id>, clean: set<Id>)
    requires clean == set id | id in ids && !Blank(id)
    ensures Selected(table, clean) == set id | id in ids && !Blank(id) && id in table && table[id].live
    ensures Selected(table, clean) == {} ==> BulkDeleted(table, clean) == Outcome(table, None)
  {
    if Selected(table, clean) == {} {
      assert forall id | id in clean && id in table && table[id].live :: id in Selected(table, clean);
      assert BulkDeleted(table, clean).table == table;
    }
  }

  /** The non-blank identifiers without a live row, in order. */
  function Missing(table: Table, ids: seq<Id>): seq<Id> {
    if ids == [] then []
    else
      var n := |ids| - 1;
      var last := if Blank(ids[n]) || (ids[n] in table && table[ids[n]].live) then [] else [ids[n]];
      Missing(table, ids[..n]) + last
  }
}
