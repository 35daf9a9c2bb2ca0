/**
 Why running a restore program twice changes nothing more than running it once, whatever deletes the
 server refuses in between: what a refused delete left, and what made it refuse, is still there.
 */
module RestoreAgain {
  import opened Prelude
  import opened Relational
  import opened DeleteTheory
  import opened RestoreTheory
  import opened RestoreReadiness

  ghost function Later(deletes: seq<DeleteStep>, i: nat): set<DeleteStep>
    requires i < |deletes|
  {
    StepsOf(deletes[i + 1..])
  }

  /** The delete takes this row, directly or through a cascade. */
  ghost predicate TakenBy(server: Server, db: Database, step: DeleteStep, table: Table, id: Key) {
    id in RowsIn(db, table) && id !in RowsIn(Kept(server, db, {step}), table)
  }

  /** The row refers to one that the delete takes. */
  ghost predicate RefersInto(server: Server, db: Database, step: DeleteStep, fk: ForeignKey, id: Key) {
    && fk in server.foreignKeys && id in RowsIn(db, fk.child)
    && Cell(RowsIn(db, fk.child)[id], fk.column).Text?
    && TakenBy(server, db, step, fk.parent, Cell(RowsIn(db, fk.child)[id], fk.column).text)
  }

  /** The rows this delete takes, and those that refer to them, outlive the deletes after it. */
  ghost predicate Lasting(server: Server, db: Database, deletes: seq<DeleteStep>, loads: seq<Load>, i: nat)
    requires i < |deletes|
  {
    && (forall table, id | TakenBy(server, db, deletes[i], table, id) :: id in RowsIn(Kept(server, db, Later(deletes, i)), table))
    && (forall fk, id | RefersInto(server, db, deletes[i], fk, id) ::
          !UpsertsInto(loads, fk.child) && id in RowsIn(Kept(server, db, Later(deletes, i)), fk.child))
  }

  /** The rows aimed at refer through an enforced key to rows that a delete which must succeed takes by id. */
  ghost predicate Anchored(server: Server, deletes: seq<DeleteStep>, i: nat)
    requires i < |deletes|
  {
    exists fk, j, ids ::
      && fk in server.foreignKeys && fk.child == deletes[i].table && deletes[i].where == ColumnIn(fk.column, ids)
      && 0 <= j < |deletes| && !deletes[j].tolerant && deletes[j].table == fk.parent && deletes[j].where == IdIn(ids)
  }

  /** Tables that are updated in place are out of reach of every delete. */
  ghost predicate UpsertsApart(server: Server, deletes: seq<DeleteStep>, loads: seq<Load>) {
    forall k | 0 <= k < |loads| && loads[k].mode.Upsert? ::
      DistinctIds(loads[k].rows) && AllSpare(server, StepsOf(deletes), loads[k].table)
  }

  ghost predicate NothingAimedAt(db: Database, step: DeleteStep) {
    forall id | id in RowsIn(db, step.table) :: !Matches(step.where, id, RowsIn(db, step.table)[id])
  }

  // ---------- anchored deletes ----------

  lemma NoParentNoChild(db: Database, fk: ForeignKey, ids: set<Key>)
    requires Holds(fk, db) && forall id | id in RowsIn(db, fk.parent) :: id !in ids
    ensures forall id | id in RowsIn(db, fk.child) :: !Matches(ColumnIn(fk.column, ids), id, RowsIn(db, fk.child)[id])
  {
  }

  lemma AcceptedLeavesNothing(server: Server, db: Database, deletes: seq<DeleteStep>, j: nat)
    requires NoOrphans(server, db) && RunDeletes(server, db, deletes).Some?
    requires j < |deletes| && Accepted(server, db, deletes, j)
    ensures NothingAimedAt(RunDeletes(server, db, deletes).value, deletes[j])
  {
    var steps := AcceptedSteps(server, db, deletes);
    DeletePhase(server, db, deletes);
    KeptIsInside(server, db, steps);
    assert Accepts(server, db, deletes, deletes[j]) && deletes[j] in steps;
    var left := Kept(server, db, steps);
    forall id | id in RowsIn(left, deletes[j].table) ensures !Matches(deletes[j].where, id, RowsIn(left, deletes[j].table)[id]) {
      assert !Aimed(steps, deletes[j].table, id, left[deletes[j].table][id]);
    }
  }

  /** A delete phase that goes through leaves nothing an anchored delete was meant to remove. */
  lemma AnchoredLeavesNothing(server: Server, db: Database, deletes: seq<DeleteStep>, i: nat)
    requires Closed(server, db) && RunDeletes(server, db, deletes).Some?
    requires i < |deletes| && Anchored(server, deletes, i)
    ensures NothingAimedAt(RunDeletes(server, db, deletes).value, deletes[i])
  {
    var fk, j, ids :|
      && fk in server.foreignKeys && fk.child == deletes[i].table && deletes[i].where == ColumnIn(fk.column, ids)
      && 0 <= j < |deletes| && !deletes[j].tolerant && deletes[j].table == fk.parent && deletes[j].where == IdIn(ids);
    var left := RunDeletes(server, db, deletes).value;
    ClosedHasNoOrphans(server, db);
    DeletesKeepClosed(server, db, deletes);
    UntoleratedIsAccepted(server, db, deletes, j);
    AcceptedLeavesNothing(server, db, deletes, j);
    assert Holds(fk, left);
    assert forall id | id in RowsIn(left, fk.parent) :: !Matches(IdIn(ids), id, RowsIn(left, fk.parent)[id]);
    NoParentNoChild(left, fk, ids);
  }

  // ---------- the two runs ----------

  ghost predicate Twice(server: Server, db: Database, once: Database, deletes: seq<DeleteStep>, loads: seq<Load>) {
    && Closed(server, db) && DistinctLoads(loads) && UpsertsApart(server, deletes, loads)
    && Restore(server, db, deletes, loads) == Some(once)
    && RunDeletes(server, once, deletes).Some?
  }

  /** What the first run left before it wrote anything back. */
  ghost function LeftFirst(server: Server, db: Database, deletes: seq<DeleteStep>): Database {
    Kept(server, db, AcceptedSteps(server, db, deletes))
  }

  lemma FirstRun(server: Server, db: Database, once: Database, deletes: seq<DeleteStep>, loads: seq<Load>)
    requires Twice(server, db, once, deletes, loads)
    ensures NoOrphans(server, db) && Closed(server, once) && NoOrphans(server, once)
    ensures RunDeletes(server, db, deletes) == Some(LeftFirst(server, db, deletes))
    ensures Closed(server, LeftFirst(server, db, deletes)) && LeftFirst(server, db, deletes).Keys == db.Keys == once.Keys
    ensures RunLoads(server, LeftFirst(server, db, deletes), loads) == Some(once)
    ensures Sub(LeftFirst(server, db, deletes), db)
  {
    ClosedHasNoOrphans(server, db);
    DeletePhase(server, db, deletes);
    DeletesKeepClosed(server, db, deletes);
    LoadsKeepClosed(server, LeftFirst(server, db, deletes), loads);
    ClosedHasNoOrphans(server, once);
    KeptIsInside(server, db, AcceptedSteps(server, db, deletes));
  }

  /** A part of the result: tables out of reach as they are, the others as far as `left` goes. */
  ghost function Old(server: Server, once: Database, deletes: seq<DeleteStep>, left: Database): Database {
    map table | table in once ::
      if AllSpare(server, StepsOf(deletes), table) then once[table] else RowsIn(left, table)
  }

  lemma OldIdsStay(server: Server, db: Database, once: Database, deletes: seq<DeleteStep>, loads: seq<Load>, table: Table, id: Key)
    requires Twice(server, db, once, deletes, loads) && id in RowsIn(LeftFirst(server, db, deletes), table)
    ensures id in RowsIn(once, table)
    ensures !UpsertsInto(loads, table) ==> RowsIn(once, table)[id] == RowsIn(LeftFirst(server, db, deletes), table)[id]
  {
    var left := LeftFirst(server, db, deletes);
    FirstRun(server, db, once, deletes, loads);
    if UpsertsInto(loads, table) {
      var k :| 0 <= k < |loads| && loads[k].table == table && loads[k].mode.Upsert?;
      LoadOf(server, left, loads, k);
      UpsertedKeys(server, table, left[table], loads[k].rows);
    } else {
      LoadsKeepRows(server, left, loads, table);
      assert Within(RowsIn(left, table), RowsIn(once, table));
    }
  }

  lemma UpsertedIsSpared(server: Server, deletes: seq<DeleteStep>, loads: seq<Load>, table: Table)
    requires UpsertsApart(server, deletes, loads) && UpsertsInto(loads, table)
    ensures AllSpare(server, StepsOf(deletes), table)
  {
  }

  lemma OldIsInside(server: Server, db: Database, once: Database, deletes: seq<DeleteStep>, loads: seq<Load>, left: Database)
    requires Twice(server, db, once, deletes, loads) && Sub(left, LeftFirst(server, db, deletes))
    ensures Sub(Old(server, once, deletes, left), once)
    ensures forall table, id | id in RowsIn(left, table) :: id in RowsIn(Old(server, once, deletes, left), table)
  {
    var old_ := Old(server, once, deletes, left);
    FirstRun(server, db, once, deletes, loads);
    forall table | table in old_ ensures Within(old_[table], once[table]) {
      if !AllSpare(server, StepsOf(deletes), table) {
        OldRowsStay(server, db, once, deletes, loads, left, table);
      }
    }
    forall table, id | id in RowsIn(left, table) ensures id in RowsIn(old_, table) {
      SubRow(left, LeftFirst(server, db, deletes), table, id);
      OldIdsStay(server, db, once, deletes, loads, table, id);
    }
  }

  lemma OldRowsStay(server: Server, db: Database, once: Database, deletes: seq<DeleteStep>, loads: seq<Load>, left: Database, table: Table)
    requires Twice(server, db, once, deletes, loads) && Sub(left, LeftFirst(server, db, deletes))
    requires !AllSpare(server, StepsOf(deletes), table)
    ensures Within(RowsIn(left, table), RowsIn(once, table))
  {
    forall id | id in RowsIn(left, table) ensures id in RowsIn(once, table) && RowsIn(once, table)[id] == RowsIn(left, table)[id] {
      SubRow(left, LeftFirst(server, db, deletes), table, id);
      OldIdsStay(server, db, once, deletes, loads, table, id);
    }
  }

  lemma OldHasNoOrphans(server: Server, db: Database, once: Database, deletes: seq<DeleteStep>, loads: seq<Load>, left: Database)
    requires Twice(server, db, once, deletes, loads) && Sub(left, LeftFirst(server, db, deletes)) && NoOrphans(server, left)
    ensures NoOrphans(server, Old(server, once, deletes, left))
  {
    var old_ := Old(server, once, deletes, left);
    FirstRun(server, db, once, deletes, loads);
    OldIsInside(server, db, once, deletes, loads, left);
    forall table, id | table in old_ && id in old_[table] ensures !Orphaned(server, old_, table, old_[table][id]) {
      OldRowHasParents(server, once, deletes, left, old_, table, id);
    }
  }

  lemma OldRowHasParents(server: Server, once: Database, deletes: seq<DeleteStep>, left: Database, old_: Database, table: Table, id: Key)
    requires NoOrphans(server, once) && NoOrphans(server, left) && left.Keys == once.Keys
    requires old_ == Old(server, once, deletes, left)
    requires forall t, i | i in RowsIn(left, t) :: i in RowsIn(old_, t)
    requires id in RowsIn(old_, table)
    ensures !Orphaned(server, old_, table, old_[table][id])
  {
    var cells := old_[table][id];
    forall fk | Cascading(server, fk) && fk.child == table && Cell(cells, fk.column).Text?
      ensures Cell(cells, fk.column).text in RowsIn(old_, fk.parent)
    {
      if AllSpare(server, StepsOf(deletes), table) {
        assert !Orphaned(server, once, table, once[table][id]);
        forall step | step in StepsOf(deletes) ensures Spares(server, step.table, fk.parent) {
          SparedParent(server, step.table, fk);
        }
      } else {
        assert id in RowsIn(left, table) && !Orphaned(server, left, table, left[table][id]);
      }
    }
  }

  /** Deletes that aim at no row of `left` leave that part of the result as it is. */
  lemma OldOutlives(server: Server, db: Database, once: Database, deletes: seq<DeleteStep>, loads: seq<Load>, left: Database,
                    steps: set<DeleteStep>)
    requires Twice(server, db, once, deletes, loads) && Sub(left, LeftFirst(server, db, deletes)) && NoOrphans(server, left)
    requires steps <= StepsOf(deletes) && forall step | step in steps :: NothingAimedAt(left, step)
    ensures Sub(Old(server, once, deletes, left), Kept(server, once, steps))
  {
    var old_ := Old(server, once, deletes, left);
    OldIsInside(server, db, once, deletes, loads, left);
    OldHasNoOrphans(server, db, once, deletes, loads, left);
    forall table, id | table in old_ && id in old_[table] ensures !Aimed(steps, table, id, old_[table][id]) {
      OldIsUnaimed(server, once, deletes, left, steps, table, id);
    }
    KeptIsGreatest(server, once, steps, old_);
  }

  lemma OldIsUnaimed(server: Server, once: Database, deletes: seq<DeleteStep>, left: Database, steps: set<DeleteStep>, table: Table, id: Key)
    requires steps <= StepsOf(deletes) && forall step | step in steps :: NothingAimedAt(left, step)
    requires id in RowsIn(Old(server, once, deletes, left), table)
    ensures !Aimed(steps, table, id, Old(server, once, deletes, left)[table][id])
  {
    var cells := Old(server, once, deletes, left)[table][id];
    forall step | step in steps && step.table == table ensures !Matches(step.where, id, cells) {
      SpareMeansOther(server, step.table, table);
      assert NothingAimedAt(left, step);
    }
  }

  // ---------- a refused delete is refused again ----------

  /** Accepted deletes of the whole run are accepted before i, or come later; or are the i-th itself. */
  lemma AcceptedBeforeOrLater(server: Server, db: Database, deletes: seq<DeleteStep>, i: nat)
    requires i < |deletes| && !Accepted(server, db, deletes, i)
    ensures AcceptedSteps(server, db, deletes) <= AcceptedSteps(server, db, deletes[..i]) + Later(deletes, i)
    ensures AcceptedSteps(server, db, deletes[..i]) <= AcceptedSteps(server, db, deletes)
  {
    AcceptedInPrefix(server, db, deletes, i);
    var before := AcceptedSteps(server, db, deletes[..i]);
    forall step | Accepts(server, db, deletes, step) ensures step in before + Later(deletes, i) {
      var j :| 0 <= j < |deletes| && deletes[j] == step && Accepted(server, db, deletes, j);
      if j < i {
        assert deletes[..i][j] == step && Accepted(server, db, deletes[..i], j);
      } else {
        assert deletes[i + 1..][j - i - 1] == step;
      }
    }
    forall step | step in before ensures Accepts(server, db, deletes, step) {
      var j :| 0 <= j < i && deletes[..i][j] == step && Accepted(server, db, deletes[..i], j);
      assert deletes[j] == step && Accepted(server, db, deletes, j);
    }
  }

  /** A row left by the deletes before i and by those after i is left by the first run. */
  lemma LeftByBoth(server: Server, db: Database, deletes: seq<DeleteStep>, i: nat, more: set<DeleteStep>, table: Table, id: Key)
    requires i < |deletes| && !Accepted(server, db, deletes, i)
    requires id in RowsIn(Kept(server, db, AcceptedSteps(server, db, deletes[..i]) + more), table)
    requires id in RowsIn(Kept(server, db, Later(deletes, i)), table)
    ensures id in RowsIn(Kept(server, db, AcceptedSteps(server, db, deletes) + more), table)
  {
    var before, all := AcceptedSteps(server, db, deletes[..i]), AcceptedSteps(server, db, deletes);
    AcceptedBeforeOrLater(server, db, deletes, i);
    KeptByBoth(server, db, before + more, Later(deletes, i), table, id);
    assert all + more <= before + more + Later(deletes, i);
    FewerStepsKeepMore(server, db, all + more, before + more + Later(deletes, i));
    SubRow(Kept(server, db, before + more + Later(deletes, i)), Kept(server, db, all + more), table, id);
  }

  /** The states around the i-th delete: before and after it in the first run, after it in the second. */
  ghost predicate Around(server: Server, db: Database, once: Database, deletes: seq<DeleteStep>, i: nat,
                         mid: Database, kept: Database, after: Database)
  {
    && i < |deletes|
    && mid == Kept(server, db, AcceptedSteps(server, db, deletes[..i]))
    && kept == Kept(server, mid, {deletes[i]})
    && after == Kept(server, once, AcceptedSteps(server, once, deletes[..i]) + {deletes[i]})
    && Closed(server, after)
  }

  lemma AroundParts(server: Server, db: Database, once: Database, deletes: seq<DeleteStep>, i: nat,
                    mid: Database, kept: Database, after: Database)
    requires Around(server, db, once, deletes, i, mid, kept, after)
    ensures Sub(mid, db) && Sub(kept, mid) && Sub(after, once)
    ensures NoOrphans(server, mid) && NoOrphans(server, kept)
    ensures NothingAimed({deletes[i]}, kept) && NothingAimed({deletes[i]}, after)
    ensures kept == Kept(server, db, AcceptedSteps(server, db, deletes[..i]) + {deletes[i]})
  {
    var second := AcceptedSteps(server, once, deletes[..i]);
    KeptIsInside(server, db, AcceptedSteps(server, db, deletes[..i]));
    KeptIsInside(server, mid, {deletes[i]});
    KeptIsInside(server, once, second + {deletes[i]});
    KeptInTurn(server, db, AcceptedSteps(server, db, deletes[..i]), {deletes[i]});
    forall table, id | table in after && id in after[table] ensures !Aimed({deletes[i]}, table, id, after[table][id]) {
      AimedByEither(second, {deletes[i]}, table, id, after[table][id]);
    }
  }

  /**
   The rows the i-th delete would take in the first run are not there after it was carried out in the
   second.
   */
  lemma TakenIsGone(server: Server, db: Database, once: Database, deletes: seq<DeleteStep>, loads: seq<Load>, i: nat,
                    mid: Database, kept: Database, after: Database, table: Table, id: Key)
    requires Around(server, db, once, deletes, i, mid, kept, after)
    requires Twice(server, db, once, deletes, loads) && Lasting(server, db, deletes, loads, i)
    requires !Accepted(server, db, deletes, i)
    requires id in RowsIn(mid, table) && id !in RowsIn(kept, table)
    ensures id !in RowsIn(after, table)
  {
    var both := Common(mid, kept, after);
    forall t, r | t in both && r in both[t]
      ensures !Orphaned(server, both, t, both[t][r]) && !Aimed({deletes[i]}, t, r, both[t][r])
    {
      CommonRow(server, db, once, deletes, loads, i, mid, kept, after, t, r);
    }
    CommonIsKept(server, deletes[i], mid, kept, after);
    NotInLarge(both, kept, table, id);
  }

  lemma CommonIsKept(server: Server, step: DeleteStep, mid: Database, kept: Database, after: Database)
    requires kept == Kept(server, mid, {step})
    requires NoOrphans(server, Common(mid, kept, after)) && NothingAimed({step}, Common(mid, kept, after))
    ensures Sub(Common(mid, kept, after), kept)
  {
    KeptIsGreatest(server, mid, {step}, Common(mid, kept, after));
  }

  lemma NotInLarge(small: Database, large: Database, table: Table, id: Key)
    requires Sub(small, large) && id !in RowsIn(large, table)
    ensures id !in RowsIn(small, table)
  {
    if id in RowsIn(small, table) {
      SubRow(small, large, table, id);
    }
  }

  /** The rows of `mid` that are in one or the other, by id. */
  ghost function Common(mid: Database, a: Database, b: Database): Database {
    map table | table in mid :: map id | id in mid[table] && (id in RowsIn(a, table) || id in RowsIn(b, table)) :: mid[table][id]
  }

  lemma SecondStepClosed(server: Server, once: Database, deletes: seq<DeleteStep>, i: nat)
    requires i < |deletes| && NoOrphans(server, once) && Accepted(server, once, deletes, i)
    ensures Closed(server, Kept(server, once, AcceptedSteps(server, once, deletes[..i]) + {deletes[i]}))
  {
    var second := AcceptedSteps(server, once, deletes[..i]);
    DeletePhase(server, once, deletes[..i]);
    TryDeleteKeeps(server, Kept(server, once, second), deletes[i]);
    KeptInTurn(server, once, second, {deletes[i]});
  }

  lemma CommonRow(server: Server, db: Database, once: Database, deletes: seq<DeleteStep>, loads: seq<Load>, i: nat,
                  mid: Database, kept: Database, after: Database, table: Table, id: Key)
    requires Around(server, db, once, deletes, i, mid, kept, after)
    requires Twice(server, db, once, deletes, loads) && Lasting(server, db, deletes, loads, i)
    requires !Accepted(server, db, deletes, i)
    requires id in RowsIn(Common(mid, kept, after), table)
    ensures !Orphaned(server, Common(mid, kept, after), table, Common(mid, kept, after)[table][id])
    ensures !Aimed({deletes[i]}, table, id, Common(mid, kept, after)[table][id])
  {
    AroundParts(server, db, once, deletes, i, mid, kept, after);
    if id in RowsIn(kept, table) {
      SubRow(kept, mid, table, id);
      KeptRowHasParents(server, mid, kept, after, table, id);
      assert !Aimed({deletes[i]}, table, id, kept[table][id]);
    } else {
      SameRowLater(server, db, once, deletes, loads, i, mid, kept, after, table, id);
      LaterRowHasParents(server, mid, kept, after, table, id);
      assert !Aimed({deletes[i]}, table, id, after[table][id]);
    }
  }

  lemma KeptRowHasParents(server: Server, mid: Database, kept: Database, after: Database, table: Table, id: Key)
    requires Sub(kept, mid) && NoOrphans(server, kept) && id in RowsIn(kept, table)
    ensures id in RowsIn(Common(mid, kept, after), table)
    ensures !Orphaned(server, Common(mid, kept, after), table, Common(mid, kept, after)[table][id])
  {
    var both := Common(mid, kept, after);
    SubRow(kept, mid, table, id);
    assert !Orphaned(server, kept, table, kept[table][id]);
    forall fk | Cascading(server, fk) && fk.child == table && Cell(kept[table][id], fk.column).Text?
      ensures Cell(kept[table][id], fk.column).text in RowsIn(both, fk.parent)
    {
      SubRow(kept, mid, fk.parent, Cell(kept[table][id], fk.column).text);
    }
  }

  lemma LaterRowHasParents(server: Server, mid: Database, kept: Database, after: Database, table: Table, id: Key)
    requires NoOrphans(server, mid) && Closed(server, after) && id in RowsIn(mid, table)
    requires id in RowsIn(after, table) && RowsIn(after, table)[id] == mid[table][id]
    ensures id in RowsIn(Common(mid, kept, after), table)
    ensures !Orphaned(server, Common(mid, kept, after), table, Common(mid, kept, after)[table][id])
  {
    var both := Common(mid, kept, after);
    assert !Orphaned(server, mid, table, mid[table][id]);
    forall fk | Cascading(server, fk) && fk.child == table && Cell(mid[table][id], fk.column).Text?
      ensures Cell(mid[table][id], fk.column).text in RowsIn(both, fk.parent)
    {
      assert Holds(fk, after) && id in RowsIn(after, fk.child);
    }
  }

  lemma TakenByStep(server: Server, db: Database, before: set<DeleteStep>, step: DeleteStep, table: Table, id: Key)
    requires id in RowsIn(Kept(server, db, before), table)
    requires id !in RowsIn(Kept(server, db, before + {step}), table)
    ensures TakenBy(server, db, step, table, id)
  {
    KeptIsInside(server, db, before);
    SubRow(Kept(server, db, before), db, table, id);
    if id in RowsIn(Kept(server, db, {step}), table) {
      KeptByBoth(server, db, before, {step}, table, id);
    }
  }

  lemma WithNothing(a: set<DeleteStep>)
    ensures a + {} == a
  {
  }

  /** A row the refused delete would take is one that outlives the later deletes. */
  lemma TakenIsLeft(server: Server, db: Database, deletes: seq<DeleteStep>, loads: seq<Load>, i: nat, table: Table, id: Key)
    requires i < |deletes| && Lasting(server, db, deletes, loads, i) && !Accepted(server, db, deletes, i)
    requires id in RowsIn(Kept(server, db, AcceptedSteps(server, db, deletes[..i])), table)
    requires TakenBy(server, db, deletes[i], table, id)
    ensures id in RowsIn(LeftFirst(server, db, deletes), table)
  {
    WithNothing(AcceptedSteps(server, db, deletes[..i]));
    WithNothing(AcceptedSteps(server, db, deletes));
    LeftByBoth(server, db, deletes, i, {}, table, id);
  }

  /** A row the refused delete would take is the same row in the second run. */
  lemma SameRowLater(server: Server, db: Database, once: Database, deletes: seq<DeleteStep>, loads: seq<Load>, i: nat,
                     mid: Database, kept: Database, after: Database, table: Table, id: Key)
    requires Around(server, db, once, deletes, i, mid, kept, after)
    requires Twice(server, db, once, deletes, loads) && Lasting(server, db, deletes, loads, i)
    requires !Accepted(server, db, deletes, i)
    requires id in RowsIn(mid, table) && id !in RowsIn(kept, table) && id in RowsIn(after, table)
    ensures RowsIn(after, table)[id] == RowsIn(mid, table)[id]
  {
    AroundParts(server, db, once, deletes, i, mid, kept, after);
    TakenByStep(server, db, AcceptedSteps(server, db, deletes[..i]), deletes[i], table, id);
    TakenIsLeft(server, db, deletes, loads, i, table, id);
    FirstRun(server, db, once, deletes, loads);
    TakenIsNotUpserted(server, db, deletes, loads, i, table, id);
    OldIdsStay(server, db, once, deletes, loads, table, id);
    SubRow(mid, db, table, id);
    SubRow(after, once, table, id);
    SubRow(LeftFirst(server, db, deletes), db, table, id);
  }

  lemma TakenIsNotUpserted(server: Server, db: Database, deletes: seq<DeleteStep>, loads: seq<Load>, i: nat, table: Table, id: Key)
    requires NoOrphans(server, db) && i < |deletes| && UpsertsApart(server, deletes, loads)
    requires TakenBy(server, db, deletes[i], table, id)
    ensures !UpsertsInto(loads, table)
  {
    if UpsertsInto(loads, table) {
      UpsertedIsSpared(server, deletes, loads, table);
      assert deletes[i] in StepsOf(deletes);
      SparedTableStays(server, db, {deletes[i]}, table);
    }
  }

  /** What made the server refuse the i-th delete is still there when the second run comes to it. */
  lemma BlockerStays(server: Server, db: Database, once: Database, deletes: seq<DeleteStep>, loads: seq<Load>, i: nat,
                     fk: ForeignKey, id: Key)
    requires Twice(server, db, once, deletes, loads) && i < |deletes| && Lasting(server, db, deletes, loads, i)
    requires !Accepted(server, db, deletes, i)
    requires forall j | 0 <= j < i && Accepted(server, once, deletes, j) :: NothingAimedAt(LeftFirst(server, db, deletes), deletes[j])
    requires Stray(server, db, AcceptedSteps(server, db, deletes[..i]), deletes[i], fk, id)
    ensures id in RowsIn(Kept(server, once, AcceptedSteps(server, once, deletes[..i]) + {deletes[i]}), fk.child)
    ensures id in RowsIn(db, fk.child) && id in RowsIn(once, fk.child)
    ensures RowsIn(once, fk.child)[id] == RowsIn(db, fk.child)[id]
  {
    var first, second := AcceptedSteps(server, db, deletes[..i]), AcceptedSteps(server, once, deletes[..i]);
    var left := Kept(server, db, AcceptedSteps(server, db, deletes) + {deletes[i]});
    FirstRun(server, db, once, deletes, loads);
    KeptIsInside(server, db, first + {deletes[i]});
    SubRow(Kept(server, db, first + {deletes[i]}), db, fk.child, id);
    assert RefersInto(server, db, deletes[i], fk, id);
    LeftByBoth(server, db, deletes, i, {deletes[i]}, fk.child, id);
    PartOutlives(server, db, once, deletes, loads, i);
    SubRow(left, LeftFirst(server, db, deletes), fk.child, id);
    SubRow(LeftFirst(server, db, deletes), db, fk.child, id);
    OldIdsStay(server, db, once, deletes, loads, fk.child, id);
    OldIsInside(server, db, once, deletes, loads, left);
    SubRow(Old(server, once, deletes, left), Kept(server, once, second + {deletes[i]}), fk.child, id);
  }

  lemma NothingAimedInPart(small: Database, large: Database, step: DeleteStep)
    requires Sub(small, large) && NothingAimedAt(large, step)
    ensures NothingAimedAt(small, step)
  {
    forall id | id in RowsIn(small, step.table) ensures !Matches(step.where, id, RowsIn(small, step.table)[id]) {
      SubRow(small, large, step.table, id);
    }
  }

  lemma PartOutlives(server: Server, db: Database, once: Database, deletes: seq<DeleteStep>, loads: seq<Load>, i: nat)
    requires Twice(server, db, once, deletes, loads) && i < |deletes|
    requires forall j | 0 <= j < i && Accepted(server, once, deletes, j) :: NothingAimedAt(LeftFirst(server, db, deletes), deletes[j])
    ensures var left := Kept(server, db, AcceptedSteps(server, db, deletes) + {deletes[i]});
            && Sub(left, LeftFirst(server, db, deletes)) && NoOrphans(server, left)
            && Sub(Old(server, once, deletes, left), Kept(server, once, AcceptedSteps(server, once, deletes[..i]) + {deletes[i]}))
  {
    var all, second := AcceptedSteps(server, db, deletes), AcceptedSteps(server, once, deletes[..i]);
    var left := Kept(server, db, all + {deletes[i]});
    FewerStepsKeepMore(server, db, all, all + {deletes[i]});
    KeptIsInside(server, db, all + {deletes[i]});
    forall step | step in second + {deletes[i]} ensures step in StepsOf(deletes) && NothingAimedAt(left, step) {
      if step in second {
        AcceptedInPrefix(server, once, deletes, i);
        var j :| 0 <= j < i && deletes[..i][j] == step && Accepted(server, once, deletes[..i], j);
        assert deletes[j] == step && Accepted(server, once, deletes, j);
        NothingAimedInPart(left, LeftFirst(server, db, deletes), step);
      } else {
        KeptAvoids(server, db, all + {deletes[i]}, deletes[i]);
      }
    }
    OldOutlives(server, db, once, deletes, loads, left, second + {deletes[i]});
  }

  lemma KeptAvoids(server: Server, db: Database, steps: set<DeleteStep>, step: DeleteStep)
    requires step in steps
    ensures NothingAimedAt(Kept(server, db, steps), step)
  {
    KeptIsInside(server, db, steps);
    var kept := Kept(server, db, steps);
    forall id | id in RowsIn(kept, step.table) ensures !Matches(step.where, id, RowsIn(kept, step.table)[id]) {
      assert !Aimed(steps, step.table, id, kept[step.table][id]);
    }
  }

  lemma RefusedAgain(server: Server, db: Database, once: Database, deletes: seq<DeleteStep>, loads: seq<Load>, i: nat)
    requires Twice(server, db, once, deletes, loads) && i < |deletes| && Lasting(server, db, deletes, loads, i)
    requires !Accepted(server, db, deletes, i)
    requires forall j | 0 <= j < i && Accepted(server, once, deletes, j) :: NothingAimedAt(LeftFirst(server, db, deletes), deletes[j])
    ensures !Accepted(server, once, deletes, i)
  {
    FirstRun(server, db, once, deletes, loads);
    KeysKept(server, once, deletes);
    if Accepted(server, once, deletes, i) {
      KeysKept(server, once, deletes[..i]);
      RefusedExactlyWhenStray(server, db, deletes, i);
      var fk, id :| Stray(server, db, AcceptedSteps(server, db, deletes[..i]), deletes[i], fk, id);
      StrayRefusesAgain(server, db, once, deletes, loads, i, fk, id);
    }
  }

  lemma StrayRefusesAgain(server: Server, db: Database, once: Database, deletes: seq<DeleteStep>, loads: seq<Load>, i: nat,
                          fk: ForeignKey, id: Key)
    requires Twice(server, db, once, deletes, loads) && i < |deletes| && Lasting(server, db, deletes, loads, i)
    requires !Accepted(server, db, deletes, i)
    requires forall j | 0 <= j < i && Accepted(server, once, deletes, j) :: NothingAimedAt(LeftFirst(server, db, deletes), deletes[j])
    requires Stray(server, db, AcceptedSteps(server, db, deletes[..i]), deletes[i], fk, id)
    ensures !Accepted(server, once, deletes, i)
  {
    FirstRun(server, db, once, deletes, loads);
    BlockerStays(server, db, once, deletes, loads, i, fk, id);
    DeletesReachPrefix(server, db, deletes, i);
    StrayParent(server, db, deletes, i, fk, id);
    var mid := Kept(server, db, AcceptedSteps(server, db, deletes[..i]));
    var kept := Kept(server, mid, {deletes[i]});
    var after := Kept(server, once, AcceptedSteps(server, once, deletes[..i]) + {deletes[i]});
    KeptInTurn(server, db, AcceptedSteps(server, db, deletes[..i]), {deletes[i]});
    KeptIsInside(server, once, AcceptedSteps(server, once, deletes[..i]) + {deletes[i]});
    SubRow(after, once, fk.child, id);
    var parent := Cell(RowsIn(db, fk.child)[id], fk.column).text;
    if Closed(server, after) {
      assert Holds(fk, after) && parent in RowsIn(after, fk.parent);
      TakenIsGone(server, db, once, deletes, loads, i, mid, kept, after, fk.parent, parent);
    }
    if Accepted(server, once, deletes, i) {
      SecondStepClosed(server, once, deletes, i);
    }
  }

  /** The row referred to is still there before the refused delete, and would be taken by it. */
  lemma StrayParent(server: Server, db: Database, deletes: seq<DeleteStep>, i: nat, fk: ForeignKey, id: Key)
    requires Closed(server, db) && i < |deletes| && RunDeletes(server, db, deletes[..i]).Some?
    requires Stray(server, db, AcceptedSteps(server, db, deletes[..i]), deletes[i], fk, id)
    ensures id in RowsIn(db, fk.child)
    ensures Cell(RowsIn(db, fk.child)[id], fk.column).Text?
    ensures var first, parent := AcceptedSteps(server, db, deletes[..i]), Cell(RowsIn(db, fk.child)[id], fk.column).text;
            && parent in RowsIn(Kept(server, db, first), fk.parent)
            && parent !in RowsIn(Kept(server, db, first + {deletes[i]}), fk.parent)
  {
    var first := AcceptedSteps(server, db, deletes[..i]);
    var mid, kept := Kept(server, db, first), Kept(server, db, first + {deletes[i]});
    ClosedHasNoOrphans(server, db);
    DeletePhase(server, db, deletes[..i]);
    DeletesKeepClosed(server, db, deletes[..i]);
    KeptIsInside(server, db, first + {deletes[i]});
    FewerStepsKeepMore(server, db, first, first + {deletes[i]});
    FewerStepsKeepMore(server, db, {deletes[i]}, first + {deletes[i]});
    SubRow(kept, db, fk.child, id);
    SubRow(kept, mid, fk.child, id);
    assert Holds(fk, mid);
    var parent := Cell(RowsIn(db, fk.child)[id], fk.column).text;
    if parent in RowsIn(kept, fk.parent) {
      SubRow(kept, Kept(server, db, {deletes[i]}), fk.parent, parent);
    }
  }

  // ---------- the second run ----------

  /** What each delete may be for the second run to repeat the first. */
  ghost predicate Repeatable(server: Server, db: Database, deletes: seq<DeleteStep>, loads: seq<Load>, i: nat)
    requires i < |deletes|
  {
    !deletes[i].tolerant || Anchored(server, deletes, i) || Lasting(server, db, deletes, loads, i)
  }

  /** A delete of the second run aims at no row that survived the first. */
  lemma {:induction false} NothingOldAimedAt(server: Server, db: Database, once: Database, deletes: seq<DeleteStep>, loads: seq<Load>, i: nat)
    requires Twice(server, db, once, deletes, loads) && i < |deletes|
    requires forall j | 0 <= j < |deletes| && Accepted(server, once, deletes, j) :: Repeatable(server, db, deletes, loads, j)
    requires Accepted(server, once, deletes, i)
    ensures NothingAimedAt(LeftFirst(server, db, deletes), deletes[i])
  {
    forall j | 0 <= j < i && Accepted(server, once, deletes, j) ensures NothingAimedAt(LeftFirst(server, db, deletes), deletes[j]) {
      NothingOldAimedAt(server, db, once, deletes, loads, j);
    }
    FirstRun(server, db, once, deletes, loads);
    assert Repeatable(server, db, deletes, loads, i);
    if Accepted(server, db, deletes, i) {
      AcceptedLeavesNothing(server, db, deletes, i);
    } else if !deletes[i].tolerant {
      UntoleratedIsAccepted(server, db, deletes, i);
    } else if Anchored(server, deletes, i) {
      AnchoredLeavesNothing(server, db, deletes, i);
    } else {
      RefusedAgain(server, db, once, deletes, loads, i);
    }
  }

  /** The second delete phase removes no row that survived the first. */
  lemma NothingNewRemoved(server: Server, db: Database, once: Database, deletes: seq<DeleteStep>, loads: seq<Load>)
    requires Twice(server, db, once, deletes, loads)
    requires forall j | 0 <= j < |deletes| && Accepted(server, once, deletes, j) :: Repeatable(server, db, deletes, loads, j)
    ensures var left, again := LeftFirst(server, db, deletes), RunDeletes(server, once, deletes).value;
            && Sub(again, once)
            && (forall table :: RowsIn(left, table).Keys <= RowsIn(again, table).Keys)
            && (forall table | AllSpare(server, StepsOf(deletes), table) :: RowsIn(again, table) == RowsIn(once, table))
  {
    var left, again, steps := LeftFirst(server, db, deletes), RunDeletes(server, once, deletes).value, AcceptedSteps(server, once, deletes);
    FirstRun(server, db, once, deletes, loads);
    DeletePhase(server, once, deletes);
    KeptIsInside(server, once, steps);
    KeptIsInside(server, db, AcceptedSteps(server, db, deletes));
    forall step | step in steps ensures NothingAimedAt(left, step) {
      var i :| 0 <= i < |deletes| && deletes[i] == step && Accepted(server, once, deletes, i);
      NothingOldAimedAt(server, db, once, deletes, loads, i);
    }
    OldOutlives(server, db, once, deletes, loads, left, steps);
    OldIsInside(server, db, once, deletes, loads, left);
    forall table ensures RowsIn(left, table).Keys <= RowsIn(again, table).Keys {
      forall id | id in RowsIn(left, table) ensures id in RowsIn(again, table) {
        SubRow(Old(server, once, deletes, left), again, table, id);
      }
    }
    forall table | AllSpare(server, StepsOf(deletes), table) ensures RowsIn(again, table) == RowsIn(once, table) {
      SparedTableStays(server, once, steps, table);
    }
  }

  lemma StoredAgain(server: Server, table: Table, start: Cells, cells: Cells)
    requires cells.Keys * server.computed(table) == {}
    ensures var once := Stored(server, table, start + cells);
            Stored(server, table, once + cells) == once
  {
    var c := server.computed(table);
    var once := Stored(server, table, start + cells);
    assert once + cells - c == start + cells - c by {
      assert forall k | k in cells && k in c :: k in cells.Keys * c;
    }
  }

  lemma MergedAgain(server: Server, table: Table, old_: Rows, once: Rows, row: Record)
    requires row.cells.Keys * server.computed(table) == {}
    requires row.id in once && once[row.id] == Merged(server, table, old_, row)
    ensures Merged(server, table, once, row) == once[row.id]
  {
    assert map[] + row.cells == row.cells;
    StoredAgain(server, table, if row.id in old_ then old_[row.id] else map[], row.cells);
  }

  /** Update-or-insert on top of its own result changes nothing. */
  lemma UpsertAgain(server: Server, table: Table, old_: Rows, rows: seq<Record>)
    requires DistinctIds(rows)
    requires forall row | row in rows :: row.cells.Keys * server.computed(table) == {}
    ensures var once := Upserted(server, table, old_, rows); Upserted(server, table, once, rows) == once
  {
    var once := Upserted(server, table, old_, rows);
    var twice := Upserted(server, table, once, rows);
    UpsertedAt(server, table, old_, rows);
    UpsertedAt(server, table, once, rows);
    UpsertedKeys(server, table, old_, rows);
    UpsertedKeys(server, table, once, rows);
    forall i | 0 <= i < |rows| ensures twice[rows[i].id] == once[rows[i].id] {
      assert rows[i] in rows;
      MergedAgain(server, table, old_, once, rows[i]);
    }
    assert twice.Keys == once.Keys;
    forall id | id in once ensures twice[id] == once[id] {
      if Mentions(rows, id) {
        var i :| 0 <= i < |rows| && rows[i].id == id;
      }
    }
  }

  lemma SameUpsertedTable(server: Server, load: Load, first: Rows, once: Rows, second: Rows, twice: Rows)
    requires load.mode.Upsert? && DistinctIds(load.rows)
    requires LoadedAs(server, load, first, once) && LoadedAs(server, load, second, twice)
    requires second == once
    ensures twice == once
  {
    UpsertAgain(server, load.table, first, load.rows);
  }

  lemma SameLoadedTable(server: Server, load: Load, first: Rows, once: Rows, second: Rows, twice: Rows)
    requires !load.mode.Upsert?
    requires LoadedAs(server, load, first, once) && LoadedAs(server, load, second, twice)
    requires Within(second, once)
    requires forall id | id in once :: id in first ==> id in second
    ensures twice == once
  {
    var image := Image(server, load.table, load.rows);
    forall id | id in once ensures id in twice && twice[id] == once[id] { }
    forall id | id in twice ensures id in once { }
  }

  /** One table is the same after the second run as after the first. */
  lemma SameTableAgain(server: Server, db: Database, once: Database, deletes: seq<DeleteStep>, loads: seq<Load>, table: Table)
    requires Twice(server, db, once, deletes, loads) && Restore(server, once, deletes, loads).Some?
    requires forall j | 0 <= j < |deletes| && Accepted(server, once, deletes, j) :: Repeatable(server, db, deletes, loads, j)
    requires table in once
    ensures RowsIn(Restore(server, once, deletes, loads).value, table) == once[table]
  {
    var left, again := LeftFirst(server, db, deletes), RunDeletes(server, once, deletes).value;
    FirstRun(server, db, once, deletes, loads);
    NothingNewRemoved(server, db, once, deletes, loads);
    assert Within(again[table], once[table]);
    assert RowsIn(left, table).Keys <= RowsIn(again, table).Keys;
    if LoadsInto(loads, table) {
      SameLoadAgain(server, deletes, loads, table, left, again, once);
    } else {
      LoadPhase(server, left, loads);
      LoadPhase(server, again, loads);
      assert RowsIn(once, table) == RowsIn(left, table);
      WithinBothWays(again[table], once[table]);
    }
  }

  lemma SameLoadAgain(server: Server, deletes: seq<DeleteStep>, loads: seq<Load>, table: Table, left: Database, again: Database, once: Database)
    requires DistinctLoads(loads) && UpsertsApart(server, deletes, loads) && LoadsInto(loads, table)
    requires RunLoads(server, left, loads) == Some(once) && RunLoads(server, again, loads).Some?
    requires table in left && table in again && table in once && Within(again[table], once[table])
    requires left[table].Keys <= again[table].Keys
    requires AllSpare(server, StepsOf(deletes), table) ==> again[table] == once[table]
    ensures RowsIn(RunLoads(server, again, loads).value, table) == once[table]
  {
    var k :| 0 <= k < |loads| && loads[k].table == table;
    LoadOf(server, left, loads, k);
    LoadOf(server, again, loads, k);
    var twice := RunLoads(server, again, loads).value[table];
    if loads[k].mode.Upsert? {
      SameUpsertedTable(server, loads[k], left[table], once[table], again[table], twice);
    } else {
      SameLoadedTable(server, loads[k], left[table], once[table], again[table], twice);
    }
  }

  /**
   Restoring the same backup again, onto the result, leaves the result as it is, if each delete must
   succeed, is anchored to one that must, or leaves rows and referring rows that outlive later deletes.
   */
  lemma RestoreTwice(server: Server, db: Database, deletes: seq<DeleteStep>, loads: seq<Load>)
    requires Closed(server, db) && DistinctLoads(loads) && UpsertsApart(server, deletes, loads)
    requires forall i | 0 <= i < |deletes| :: Repeatable(server, db, deletes, loads, i)
    ensures var once := AfterRestore(server, db, deletes, loads);
            AfterRestore(server, once, deletes, loads) == once
  {
    var once := AfterRestore(server, db, deletes, loads);
    if Restore(server, db, deletes, loads).Some? && Restore(server, once, deletes, loads).Some? {
      SecondRunRepeats(server, db, once, deletes, loads);
    }
  }

  /** Where the second run commits too, it repeats the first if each delete it carries out is such. */
  lemma SecondRunRepeats(server: Server, db: Database, once: Database, deletes: seq<DeleteStep>, loads: seq<Load>)
    requires Twice(server, db, once, deletes, loads) && Restore(server, once, deletes, loads).Some?
    requires forall i | 0 <= i < |deletes| && Accepted(server, once, deletes, i) :: Repeatable(server, db, deletes, loads, i)
    ensures Restore(server, once, deletes, loads).value == once
  {
    var twice := Restore(server, once, deletes, loads).value;
    FirstRun(server, db, once, deletes, loads);
    KeysKept(server, once, deletes);
    forall table | table in once ensures twice[table] == once[table] {
      SameTableAgain(server, db, once, deletes, loads, table);
    }
  }
}
