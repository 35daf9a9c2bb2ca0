/**
 Numbering of archives, HS-YYYY-XXXX, over drafts, finalisation, soft and hard deletion
 (backend_nest/src/archives-management/archives-management.service.ts).
 */
module ArchiveNumbers {
  import opened Prelude
  import opened Decimals

  /** One archive. Status 1 is live, 0 is soft-deleted. */
  datatype Archive = Archive(number: string, draft: bool, live: bool)

  type Table = map<int, Archive>

  function Prefix(year: nat): string {
    "HS-" + Print(year) + "-"
  }

  function Number(year: nat, n: nat): string {
    Prefix(year) + PadStart(Print(n), 4)
  }

  /** A live archive carries this number. */
  predicate InUse(table: Table, number: string) {
    exists id :: id in table && table[id].live && table[id].number == number
  }

  /** The query for the last number of a prefix: live rows only, greatest string first. */
  ghost predicate IsLast(table: Table, prefix: string, last: Option<string>) {
    match last
    case None => forall id | id in table && table[id].live :: !(prefix <= table[id].number)
    case Some(top) =>
      && prefix <= top && InUse(table, top)
      && forall id | id in table && table[id].live && prefix <= table[id].number ::
           table[id].number == top || Below(table[id].number, top)
  }

  /** The number issued after the given last one. */
  function Next(prefix: string, last: Option<string>): string
    requires last.Some? ==> prefix <= last.value
  {
    var n := match last
      case None => 1
      case Some(top) =>
        match ParseInt(top[|prefix|..])
        case None => 1
        case Some(k) => k + 1;
    prefix + PadStart(PrintInt(n), 4)
  }

  /** The number a new draft gets. */
  ghost predicate Issued(table: Table, year: nat, number: string) {
    exists last: Option<string> ::
      && IsLast(table, Prefix(year), last)
      && (last.Some? ==> Prefix(year) <= last.value)
      && number == Next(Prefix(year), last)
  }

  // ---------- the service, one call per step ----------

  datatype Call =
    | CreateDraft(year: nat, id: int)
    | DeleteDraft(id: int)
    | Create(id: int)
    | Update(id: int)
    | Delete(ids: set<int>)
    | HardDelete(ids: set<int>)

  /**
   One accepted call. `CreateDraft` names the id the database gives the new row, `Create` the draft
   the lookup by number returned; `Delete` and `HardDelete` also stand for their one-id forms.
   */
  ghost predicate Step(table: Table, call: Call, after: Table) {
    match call
    case CreateDraft(year, id) =>
      id !in table && exists number :: Issued(table, year, number) && after == table[id := Archive(number, true, true)]
    case DeleteDraft(id) =>
      id in table && table[id].draft && table[id].live && after == table - {id}
    case Create(id) =>
      id in table && table[id].draft && table[id].live && after == table[id := table[id].(draft := false)]
    case Update(id) =>
      id in table && !table[id].draft && table[id].live && after == table
    case Delete(ids) =>
      after == map id | id in table :: if id in ids then table[id].(live := false) else table[id]
    case HardDelete(ids) =>
      after == table - ids
  }

  // ---------- invariants ----------

  /** The service printed this number. */
  ghost predicate IsNumber(number: string) {
    exists year: nat, n: nat :: n >= 1 && number == Number(year, n)
  }

  ghost predicate Numbered(table: Table) {
    forall id | id in table && table[id].live :: IsNumber(table[id].number)
  }

  /** No two live archives share a number. */
  ghost predicate DistinctNumbers(table: Table) {
    forall a, b | a in table && b in table && a != b && table[a].live && table[b].live ::
      table[a].number != table[b].number
  }

  /** Every live number still has a four-digit suffix. */
  ghost predicate FourDigits(table: Table) {
    forall year: nat, n: nat | InUse(table, Number(year, n)) :: n <= 9999
  }

  /**
   The year's numbers have outgrown their width: the greatest string among them is all nines, of
   four digits or more, and its successor, one digit longer, is in use as well.
   */
  ghost predicate Exhausted(table: Table, year: nat) {
    exists k: nat ::
      && k >= 4
      && IsLast(table, Prefix(year), Some(Number(year, Pow10(k) - 1)))
      && InUse(table, Number(year, Pow10(k)))
  }

  // ---------- numbers as strings ----------

  /** Digits up to the separator determine the year. */
  lemma YearOfPrefix(a: nat, b: nat, rest: string)
    requires Prefix(a) <= Prefix(b) + rest
    ensures a == b
  {
    var x, y := Print(a), Print(b);
    var s := Prefix(b) + rest;
    assert Prefix(a)[3 + |x|] == '-' && s[3 + |x|] == '-';
    assert forall i | 0 <= i < |x| :: x[i] == Prefix(a)[3 + i] == s[3 + i];
    assert forall i | 0 <= i < |y| :: y[i] == s[3 + i];
    assert s[3 + |y|] == '-';
    assert forall i | 0 <= i < |x| :: IsDigit(x[i]) && x[i] != '-';
    assert forall i | 0 <= i < |y| :: IsDigit(y[i]) && y[i] != '-';
    assert |x| == |y|;
    assert x == y;
    PrintIsInjective(a, b);
  }

  lemma NumbersMatchPrefix(year: nat, other: nat, n: nat)
    ensures Prefix(year) <= Number(other, n) <==> year == other
  {
    if Prefix(year) <= Number(other, n) {
      YearOfPrefix(year, other, PadStart(Print(n), 4));
    }
  }

  lemma NumberIsInjective(a: nat, n: nat, b: nat, m: nat)
    requires Number(a, n) == Number(b, m)
    ensures a == b && n == m
  {
    NumbersMatchPrefix(a, b, m);
    assert Number(a, n)[|Prefix(a)|..] == PadStart(Print(n), 4);
    assert Number(b, m)[|Prefix(b)|..] == PadStart(Print(m), 4);
    PadKeepsValue(n, 4);
    PadKeepsValue(m, 4);
  }

  lemma SuffixOrder(year: nat, n: nat, m: nat)
    ensures Below(Number(year, n), Number(year, m)) <==> Below(PadStart(Print(n), 4), PadStart(Print(m), 4))
  {
    BelowAfterPrefix(Prefix(year), PadStart(Print(n), 4), PadStart(Print(m), 4));
  }

  /** The successor of a number sorts above it unless it has one digit more. */
  lemma SuccessorSortsAbove(n: nat)
    ensures var a, b := PadStart(Print(n), 4), PadStart(Print(n + 1), 4);
            || Below(a, b)
            || (|a| >= 4 && n == Pow10(|a|) - 1)
  {
    var a, b := PadStart(Print(n), 4), PadStart(Print(n + 1), 4);
    PaddedLength(n, 4);
    PaddedLength(n + 1, 4);
    WidthOfSuccessor(n, |a|, |b|);
    if |a| == |b| {
      PadKeepsValue(n, 4);
      PadKeepsValue(n + 1, 4);
      FixedWidthOrder(a, b);
    }
  }

  /** A successor is as wide as its number, or one digit wider after all nines. */
  lemma WidthOfSuccessor(n: nat, a: nat, b: nat)
    requires 4 <= a && n < Pow10(a) && (a > 4 ==> Pow10(a - 1) <= n)
    requires 4 <= b && n + 1 < Pow10(b) && (b > 4 ==> Pow10(b - 1) <= n + 1)
    ensures a == b || n == Pow10(a) - 1
  {
    if b < a {
      if b < a - 1 { Pow10Grows(b, a - 1); }
    } else if a < b - 1 {
      Pow10Grows(a, b - 1);
    }
  }

  /** The number printed after `Number(year, n)` is the one for n + 1. */
  lemma NextOfNumber(year: nat, n: nat)
    ensures Prefix(year) <= Number(year, n)
    ensures Next(Prefix(year), Some(Number(year, n))) == Number(year, n + 1)
  {
    assert Number(year, n)[|Prefix(year)|..] == PadStart(Print(n), 4);
    ParsePadded(n, 4);
  }

  lemma LastIsUnique(table: Table, prefix: string, a: Option<string>, b: Option<string>)
    requires IsLast(table, prefix, a) && IsLast(table, prefix, b)
    ensures a == b
  {
    if a.Some? && b.Some? {
      BelowIsStrict(a.value, b.value);
    }
  }

  // ---------- what is issued ----------

  /**
   The issued number is one of the year's, and it is already taken exactly when the year's numbers
   have outgrown their width.
   */
  lemma IssuedIsNewUnlessExhausted(table: Table, year: nat, number: string)
    requires Numbered(table) && Issued(table, year, number)
    ensures exists n: nat :: n >= 1 && number == Number(year, n)
    ensures InUse(table, number) <==> Exhausted(table, year)
  {
    var last: Option<string> :|
      IsLast(table, Prefix(year), last) && (last.Some? ==> Prefix(year) <= last.value)
      && number == Next(Prefix(year), last);
    if last.None? {
      assert number == Number(year, 1);
    } else {
      var m := SuffixOf(table, year, last.value);
      NextOfNumber(year, m);
      AfterLast(table, year, m);
    }
  }

  /** The first number of a year ends in 0001; after that it is the one above the greatest in string order. */
  lemma IssuedFollowsTheLast(table: Table, year: nat, number: string)
    requires Numbered(table) && Issued(table, year, number)
    ensures var prefix := "HS-" + Print(year) + "-";
            && ((forall id | id in table && table[id].live :: !(prefix <= table[id].number)) ==> number == prefix + "0001")
            && (forall top, n: nat | n >= 1 && top in table && table[top].live && table[top].number == prefix + PadStart(Print(n), 4)
                  && (forall id | id in table && table[id].live && prefix <= table[id].number ::
                        table[id].number == table[top].number || Below(table[id].number, table[top].number)) ::
                  number == prefix + PadStart(Print(n + 1), 4))
  {
    var prefix := "HS-" + Print(year) + "-";
    var last: Option<string> :|
      IsLast(table, Prefix(year), last) && (last.Some? ==> Prefix(year) <= last.value)
      && number == Next(Prefix(year), last);
    assert Prefix(year) == prefix;
    if last.None? {
      FirstSuffix();
    }
    forall top, n: nat | n >= 1 && top in table && table[top].live && table[top].number == prefix + PadStart(Print(n), 4)
                  && (forall id | id in table && table[id].live && prefix <= table[id].number ::
                        table[id].number == table[top].number || Below(table[id].number, table[top].number))
      ensures number == prefix + PadStart(Print(n + 1), 4)
    {
      NextOfNumber(year, n);
      assert InUse(table, table[top].number) && IsLast(table, prefix, Some(Number(year, n)));
      LastIsUnique(table, prefix, last, Some(Number(year, n)));
    }
  }

  /** A greatest number whose suffix is no number at all starts the year anew. */
  lemma UnreadableStartsAnew(table: Table, year: nat, number: string, top: string)
    requires Issued(table, year, number) && IsLast(table, "HS-" + Print(year) + "-", Some(top))
    requires ParseInt(top[|"HS-" + Print(year) + "-"|..]) == None
    ensures number == "HS-" + Print(year) + "-" + "0001"
  {
    var last: Option<string> :|
      IsLast(table, Prefix(year), last) && (last.Some? ==> Prefix(year) <= last.value)
      && number == Next(Prefix(year), last);
    LastIsUnique(table, Prefix(year), last, Some(top));
    FirstSuffix();
  }

  lemma FirstSuffix()
    ensures PadStart(PrintInt(1), 4) == "0001"
  {
  }

  /** With m on top, m + 1 is in use exactly when m is all nines and its successor is live. */
  lemma AfterLast(table: Table, year: nat, m: nat)
    requires IsLast(table, Prefix(year), Some(Number(year, m)))
    ensures InUse(table, Number(year, m + 1)) <==> Exhausted(table, year)
  {
    if InUse(table, Number(year, m + 1)) {
      NumbersMatchPrefix(year, year, m + 1);
      NumberIsNotItsSuccessor(year, m);
      var k := LowerSuccessorIsLonger(year, m);
      assert Number(year, m) == Number(year, Pow10(k) - 1);
    }
    if Exhausted(table, year) {
      var k: nat :| k >= 4 && IsLast(table, Prefix(year), Some(Number(year, Pow10(k) - 1)))
                    && InUse(table, Number(year, Pow10(k)));
      LastIsUnique(table, Prefix(year), Some(Number(year, m)), Some(Number(year, Pow10(k) - 1)));
      NumberIsInjective(year, m, year, Pow10(k) - 1);
    }
  }

  lemma LowerSuccessorIsLonger(year: nat, m: nat) returns (k: nat)
    requires Below(Number(year, m + 1), Number(year, m))
    ensures k >= 4 && m == Pow10(k) - 1
  {
    SuffixOrder(year, m, m + 1);
    BelowIsStrict(Number(year, m), Number(year, m + 1));
    SuccessorSortsAbove(m);
    k := |PadStart(Print(m), 4)|;
  }

  lemma NumberIsNotItsSuccessor(year: nat, m: nat)
    ensures Number(year, m) != Number(year, m + 1)
  {
    if Number(year, m) == Number(year, m + 1) {
      NumberIsInjective(year, m, year, m + 1);
    }
  }

  /** A live number under the year's prefix is one of the year's numbers. */
  lemma SuffixOf(table: Table, year: nat, number: string) returns (n: nat)
    requires Numbered(table) && InUse(table, number) && Prefix(year) <= number
    ensures n >= 1 && number == Number(year, n)
  {
    var id :| id in table && table[id].live && table[id].number == number;
    var y: nat, m: nat :| m >= 1 && table[id].number == Number(y, m);
    NumbersMatchPrefix(year, y, m);
    n := m;
  }

  lemma FourDigitsNotExhausted(table: Table, year: nat)
    requires FourDigits(table)
    ensures !Exhausted(table, year)
  {
    if Exhausted(table, year) {
      var k: nat :| k >= 4 && InUse(table, Number(year, Pow10(k)));
      FiveDigitsFrom(k);
    }
  }

  lemma FiveDigitsFrom(k: nat)
    requires k >= 4
    ensures Pow10(k) > 9999
  {
  }

  /** While suffixes have four digits, the issued number is above every live number of its year. */
  lemma IssuedExceedsAll(table: Table, year: nat, number: string) returns (n: nat)
    requires Numbered(table) && FourDigits(table) && Issued(table, year, number)
    ensures number == Number(year, n)
    ensures forall m: nat | InUse(table, Number(year, m)) :: m < n
  {
    var last: Option<string> :|
      IsLast(table, Prefix(year), last) && (last.Some? ==> Prefix(year) <= last.value)
      && number == Next(Prefix(year), last);
    if last.None? {
      n := 1;
      forall m: nat ensures !InUse(table, Number(year, m)) {
        NumbersMatchPrefix(year, year, m);
      }
    } else {
      var top := SuffixOf(table, year, last.value);
      NextOfNumber(year, top);
      n := top + 1;
      forall m: nat | InUse(table, Number(year, m)) ensures m < n {
        NumbersMatchPrefix(year, year, m);
        FourDigitOrder(year, m, top);
      }
    }
  }

  lemma FourDigitOrder(year: nat, m: nat, top: nat)
    requires m <= 9999 && top <= 9999
    requires Number(year, m) == Number(year, top) || Below(Number(year, m), Number(year, top))
    ensures m <= top
  {
    if Number(year, m) == Number(year, top) {
      NumberIsInjective(year, m, year, top);
    } else {
      SuffixOrder(year, m, top);
      FourDigitWidth(m);
      FourDigitWidth(top);
      PadKeepsValue(m, 4);
      PadKeepsValue(top, 4);
      FixedWidthOrder(PadStart(Print(m), 4), PadStart(Print(top), 4));
    }
  }

  lemma FourDigitWidth(n: nat)
    requires n <= 9999
    ensures |PadStart(Print(n), 4)| == 4
  {
    PaddedLength(n, 4);
    var k := |PadStart(Print(n), 4)|;
    assert Pow10(4) == 10000;
    if k > 5 { Pow10Grows(4, k - 1); }
  }

  // ---------- runs ----------

  /** One call keeps numbers distinct, except a draft created in an exhausted year, which never does. */
  lemma StepKeepsDistinctUnlessExhausted(table: Table, call: Call, after: Table)
    requires Numbered(table) && DistinctNumbers(table) && Step(table, call, after)
    ensures Numbered(after)
    ensures DistinctNumbers(after) <==> !(call.CreateDraft? && Exhausted(table, call.year))
  {
    if call.CreateDraft? {
      var number :| Issued(table, call.year, number) && after == table[call.id := Archive(number, true, true)];
      IssuedIsNewUnlessExhausted(table, call.year, number);
      AddedNumber(table, call.id, number);
    } else {
      assert forall id | id in after && after[id].live :: id in table && table[id].live && table[id].number == after[id].number;
    }
  }

  lemma AddedNumber(table: Table, id: int, number: string)
    requires Numbered(table) && DistinctNumbers(table) && id !in table
    requires IsNumber(number)
    ensures var after := table[id := Archive(number, true, true)];
            Numbered(after) && (DistinctNumbers(after) <==> !InUse(table, number))
  {
    var after := table[id := Archive(number, true, true)];
    if InUse(table, number) {
      var other :| other in table && table[other].live && table[other].number == number;
      assert after[other].number == after[id].number && other != id && after[other].live;
    }
  }

  /** `tables[i + 1]` results from `calls[i]` on `tables[i]`. */
  ghost predicate Run(tables: seq<Table>, calls: seq<Call>) {
    && |tables| == |calls| + 1
    && forall i | 0 <= i < |calls| :: Step(tables[i], calls[i], tables[i + 1])
  }

  ghost predicate DraftsInExhaustedYear(table: Table, call: Call) {
    call.CreateDraft? && Exhausted(table, call.year)
  }

  ghost predicate DistinctThroughout(tables: seq<Table>, n: nat)
    requires n < |tables|
  {
    forall i | 0 <= i <= n :: DistinctNumbers(tables[i])
  }

  /** In every run, numbers are distinct in every state exactly as long as no draft is created in an exhausted year. */
  lemma {:induction false} RunKeepsNumbersDistinct(tables: seq<Table>, calls: seq<Call>, n: nat)
    requires Run(tables, calls) && n <= |calls|
    requires Numbered(tables[0]) && DistinctNumbers(tables[0])
    ensures Numbered(tables[n])
    ensures DistinctThroughout(tables, n) <==> forall i | 0 <= i < n :: !DraftsInExhaustedYear(tables[i], calls[i])
  {
    if n > 0 {
      RunKeepsNumbersDistinct(tables, calls, n - 1);
      assert Step(tables[n - 1], calls[n - 1], tables[n]);
      assert DistinctThroughout(tables, n) <==> DistinctThroughout(tables, n - 1) && DistinctNumbers(tables[n]);
      StepKeepsNumbered(tables[n - 1], calls[n - 1], tables[n]);
      if DistinctThroughout(tables, n - 1) {
        StepKeepsDistinctUnlessExhausted(tables[n - 1], calls[n - 1], tables[n]);
      }
    }
  }

  lemma StepKeepsNumbered(table: Table, call: Call, after: Table)
    requires Numbered(table) && Step(table, call, after)
    ensures Numbered(after)
  {
    if call.CreateDraft? {
      var number :| Issued(table, call.year, number) && after == table[call.id := Archive(number, true, true)];
      IssuedIsNewUnlessExhausted(table, call.year, number);
    }
  }

  /** So they are while suffixes have four digits. */
  lemma FourDigitRunsStayDistinct(tables: seq<Table>, calls: seq<Call>, n: nat)
    requires Run(tables, calls) && n <= |calls|
    requires Numbered(tables[0]) && DistinctNumbers(tables[0])
    requires forall i | 0 <= i < n :: FourDigits(tables[i])
    ensures DistinctThroughout(tables, n)
  {
    RunKeepsNumbersDistinct(tables, calls, n);
    forall i | 0 <= i < n ensures !DraftsInExhaustedYear(tables[i], calls[i]) {
      if calls[i].CreateDraft? {
        FourDigitsNotExhausted(tables[i], calls[i].year);
      }
    }
  }

  /** The bound is sharp: with 9999 and 10000 both in use, 10000 is issued again. */
  lemma TenThousandIsIssuedTwice(year: nat)
    ensures var table := map[1 := Archive(Number(year, 9999), false, true), 2 := Archive(Number(year, 10000), false, true)];
            && Numbered(table) && DistinctNumbers(table) && Exhausted(table, year)
            && Issued(table, year, Number(year, 10000)) && InUse(table, Number(year, 10000))
  {
    SuffixOrder(year, 10000, 9999);
    IssuedTwice(year, 9999);
  }

  lemma IssuedTwice(year: nat, m: nat)
    requires m >= 1 && Below(Number(year, m + 1), Number(year, m))
    ensures var table := map[1 := Archive(Number(year, m), false, true), 2 := Archive(Number(year, m + 1), false, true)];
            && Numbered(table) && DistinctNumbers(table) && Exhausted(table, year)
            && Issued(table, year, Number(year, m + 1)) && InUse(table, Number(year, m + 1))
  {
    NumberIsNotItsSuccessor(year, m);
    NextOfNumber(year, m);
    TopOfTwo(Prefix(year), Number(year, m), Number(year, m + 1));
    AfterLast(map[1 := Archive(Number(year, m), false, true), 2 := Archive(Number(year, m + 1), false, true)], year, m);
    IssuedAfter(map[1 := Archive(Number(year, m), false, true), 2 := Archive(Number(year, m + 1), false, true)], year, m);
  }

  lemma IssuedAfter(table: Table, year: nat, m: nat)
    requires IsLast(table, Prefix(year), Some(Number(year, m)))
    ensures Issued(table, year, Number(year, m + 1))
  {
    NextOfNumber(year, m);
  }

  lemma TopOfTwo(prefix: string, top: string, other: string)
    requires prefix <= top && Below(other, top) && top != other && IsNumber(top) && IsNumber(other)
    ensures var table := map[1 := Archive(top, false, true), 2 := Archive(other, false, true)];
            && IsLast(table, prefix, Some(top)) && InUse(table, other)
            && Numbered(table) && DistinctNumbers(table)
  {
    var table := map[1 := Archive(top, false, true), 2 := Archive(other, false, true)];
    assert table[1].number == top && table[2].number == other;
  }

  /**
   A draft is a new live row with the issued number; finishing one only takes its draft mark; deleting a
   draft takes its row away, soft deletion only the live mark, hard deletion the rows. No other row changes.
   */
  lemma StoredAfterStep(table: Table, call: Call, after: Table, id: int)
    requires Step(table, call, after)
    ensures call.CreateDraft? && id == call.id ==>
              id !in table && id in after && after[id].draft && after[id].live && Issued(table, call.year, after[id].number)
    ensures call.DeleteDraft? && id == call.id ==> id in table && table[id].draft && table[id].live && id !in after
    ensures call.Create? && id == call.id ==>
              && id in table && table[id].draft && table[id].live
              && id in after && !after[id].draft && after[id].live && after[id].number == table[id].number
    ensures call.Delete? && id in call.ids && id in table ==>
              id in after && !after[id].live && after[id].draft == table[id].draft && after[id].number == table[id].number
    ensures call.HardDelete? && id in call.ids ==> id !in after
    ensures (match call
             case CreateDraft(_, new_) => id != new_ case DeleteDraft(old_) => id != old_ case Create(old_) => id != old_
             case Update(_) => true case Delete(ids) => id !in ids case HardDelete(ids) => id !in ids) ==>
              (id in after <==> id in table) && (id in table ==> after[id] == table[id])
  {
  }

  // ---------- the service ----------

  function Live(table: Table, ids: set<int>): set<int> {
    set id | id in ids && id in table && table[id].live
  }

  class ArchiveService {
    var table: Table
    var nextId: int

    ghost predicate Valid()
      reads this
    {
      forall id | id in table :: id < nextId
    }

    constructor ()
      ensures Valid() && table == map[]
    {
      table, nextId := map[], 1;
    }

    /** ORDER BY archives_number DESC, first row, among the live numbers under a prefix. */
    method QueryLast(prefix: string) returns (last: Option<string>)
      ensures IsLast(table, prefix, last)
      ensures last.Some? ==> prefix <= last.value
    {
      var left := table.Keys;
      last := None;
      while left != {}
        invariant left <= table.Keys
        invariant last.Some? ==> prefix <= last.value && InUse(table, last.value)
        invariant forall id | id in table && id !in left && table[id].live && prefix <= table[id].number ::
                    last.Some? && (table[id].number == last.value || Below(table[id].number, last.value))
        decreases left
      {
        HasMember(left);
        var id :| id in left;
        if table[id].live && prefix <= table[id].number
           && (last.None? || Below(last.value, table[id].number)) {
          if last.Some? { BelowIsTransitive(table, prefix, last.value, table[id].number, left); }
          last := Some(table[id].number);
        } else if last.Some? {
          BelowIsStrict(table[id].number, last.value);
        }
        left := left - {id};
      }
    }

    method CreateDraft(year: nat) returns (id: int, number: string)
      requires Valid()
      modifies this
      ensures Valid() && Step(old(table), Call.CreateDraft(year, id), table)
      ensures id in table && table[id].number == number && Issued(old(table), year, number)
    {
      var last := QueryLast(Prefix(year));
      number := Next(Prefix(year), last);
      id := nextId;
      assert Issued(table, year, number);
      table := table[id := Archive(number, true, true)];
      nextId := nextId + 1;
    }

    method DeleteDraft(id: int) returns (ok: bool)
      requires Valid()
      modifies this
      ensures Valid()
      ensures ok <==> id in old(table) && old(table)[id].draft && old(table)[id].live
      ensures if ok then Step(old(table), Call.DeleteDraft(id), table) else table == old(table)
    {
      ok := id in table && table[id].draft && table[id].live;
      if ok {
        table := table - {id};
      }
    }

    /** Turns the live draft with this number into an archive; fails when there is none. */
    method Create(number: string, sourceExists: bool) returns (id: Option<int>)
      requires Valid()
      modifies this
      ensures Valid()
      ensures id.Some? <==> sourceExists && exists d :: d in old(table) && old(table)[d].number == number && old(table)[d].draft && old(table)[d].live
      ensures id.Some? ==> id.value in old(table) && old(table)[id.value].number == number && Step(old(table), Call.Create(id.value), table)
      ensures id.None? ==> table == old(table)
    {
      var drafts := set d | d in table && table[d].number == number && table[d].draft && table[d].live;
      HasMember(drafts);
      if !sourceExists || drafts == {} {
        assert forall d | d in table && table[d].number == number && table[d].draft && table[d].live :: d in drafts;
        return None;
      }
      var d :| d in drafts;
      table := table[d := table[d].(draft := false)];
      id := Some(d);
    }

    /** Soft deletion of the live archives among `ids`; fails when there is none. */
    method DeleteMany(ids: set<int>) returns (ok: bool)
      requires Valid()
      modifies this
      ensures Valid()
      ensures ok <==> exists id :: id in ids && id in old(table) && old(table)[id].live
      ensures ok ==> Step(old(table), Delete(Live(old(table), ids)), table)
      ensures table.Keys == old(table).Keys
      ensures forall id | id in old(table) :: table[id] == if id in ids then old(table)[id].(live := false) else old(table)[id]
      ensures !ok ==> table == old(table)
    {
      var found := Live(table, ids);
      HasMember(found);
      assert forall id | id in ids && id in table && table[id].live :: id in found;
      ok := found != {};
      if ok {
        table := map id | id in table :: if id in found then table[id].(live := false) else table[id];
      }
    }

    method HardDeleteMany(ids: set<int>) returns (ok: bool)
      requires Valid()
      modifies this
      ensures Valid()
      ensures ok <==> ids * old(table).Keys != {}
      ensures ok ==> Step(old(table), HardDelete(ids * old(table).Keys), table)
      ensures !ok ==> table == old(table)
    {
      var found := set id | id in ids && id in table;
      assert found == ids * table.Keys;
      ok := found != {};
      if ok {
        table := table - found;
      }
    }
  }

  /** What was at most the old maximum is below the new one. */
  lemma BelowIsTransitive(table: Table, prefix: string, old_: string, new_: string, left: set<int>)
    requires Below(old_, new_)
    ensures forall id | id in table && id !in left && (table[id].number == old_ || Below(table[id].number, old_)) ::
              Below(table[id].number, new_)
  {
    forall id | id in table && Below(table[id].number, old_) ensures Below(table[id].number, new_) {
      BelowChains(table[id].number, old_, new_);
    }
  }

  lemma {:induction false} BelowChains(a: string, b: string, c: string)
    requires Below(a, b) && Below(b, c)
    ensures Below(a, c)
  {
    if a != [] && a[0] == b[0] == c[0] {
      BelowChains(a[1..], b[1..], c[1..]);
    }
  }
}
