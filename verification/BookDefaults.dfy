/**
 Default and certified-copy books: one default book a group, one certified book a year
 (backend_nest/src/book-documents/book-documents.service.ts).
 */
module BookDefaults {
  import opened Prelude

  type Id = int

  const NOT_ACTIVED := 0
  const ACTIVED := 1
  const DELETED := 3

  datatype Book = Book(name: string, year: Option<int>, status: int, docType: Option<string>, isDefault: bool, certified: bool)

  type Table = map<Id, Book>

  /** Maps texts the database holds equal to one text. */
  type Collation = string -> string

  /** A payload field: not sent, sent as null, or sent with a value. */
  datatype Field = Keep | SetTo(value: Option<string>)

  /** The request after validation and transformation, which leave flags absent or boolean. */
  datatype Payload = Payload(name: Option<string>, year: Option<int>, docType: Field,
                             isDefault: Option<bool>, certified: Option<bool>)

  datatype Error = BadRequest | NotFound | Forbidden

  /** There is no transaction: a refused call leaves the defaults it reset before. */
  datatype Outcome = Outcome(table: Table, error: Option<Error>)

  // ---------- the two rules ----------

  /** A live default book of some year and non-empty document type. */
  predicate Defaulted(b: Book) {
    b.status != DELETED && b.isDefault && b.year.Some? && b.docType.Some? && b.docType.value != ""
  }

  predicate SameGroup(a: Book, b: Book, collate: Collation)
    requires a.docType.Some? && b.docType.Some?
  {
    a.year == b.year && collate(a.docType.value) == collate(b.docType.value) && a.certified == b.certified
  }

  ghost predicate OneDefault(table: Table, collate: Collation) {
    forall i, j | i in table && j in table && Defaulted(table[i]) && Defaulted(table[j])
                  && SameGroup(table[i], table[j], collate) :: i == j
  }

  /** A live certified book of some year. */
  predicate Certified(b: Book) {
    b.certified && b.status in {ACTIVED, NOT_ACTIVED} && b.year.Some?
  }

  ghost predicate OneCertified(table: Table) {
    forall i, j | i in table && j in table && Certified(table[i]) && Certified(table[j])
                  && table[i].year == table[j].year :: i == j
  }

  /** Another default book in the group of `b`. */
  predicate GroupOccupied(table: Table, id: Id, b: Book, collate: Collation)
    requires b.docType.Some?
  {
    exists i :: i in table && i != id && Defaulted(table[i]) && SameGroup(table[i], b, collate)
  }

  /** Another certified book of the year; without a year, of any year (a null criterion is skipped). */
  predicate CertifiedElsewhere(table: Table, id: Id, year: Option<int>) {
    exists i :: i in table && i != id && table[i].certified && table[i].status in {ACTIVED, NOT_ACTIVED}
                && (year.None? || table[i].year == year)
  }

  // ---------- the calls ----------

  predicate Resettable(year: Option<int>, docType: Option<string>) {
    year.Some? && year.value != 0 && docType.Some? && docType.value != ""
  }

  predicate ToReset(b: Book, collate: Collation, year: int, docType: string, certified: bool) {
    && b.year == Some(year) && b.docType.Some? && collate(b.docType.value) == collate(Trim(docType))
    && b.certified == certified && b.status != DELETED
  }

  /** Clears the default flag of the group with the trimmed type; does nothing without a year or a type. */
  function Reset(table: Table, collate: Collation, year: Option<int>, docType: Option<string>, except: Id, certified: bool): Table {
    if !Resettable(year, docType) then table
    else map i | i in table ::
           if i != except && ToReset(table[i], collate, year.value, docType.value, certified)
           then table[i].(isDefault := false) else table[i]
  }

  predicate Incomplete(p: Payload) {
    p.name.None? || Blank(p.name.value) || p.year.None?
  }

  function NewBook(p: Payload): Book
    requires !Incomplete(p)
  {
    Book(p.name.value, p.year, ACTIVED, if p.docType.SetTo? then p.docType.value else None,
         p.isDefault == Some(true), p.certified == Some(true))
  }

  function Create(table: Table, collate: Collation, id: Id, p: Payload): Outcome {
    if Incomplete(p) then Outcome(table, Some(BadRequest))
    else
      var b := NewBook(p);
      var mid := if b.isDefault then Reset(table, collate, b.year, b.docType, id, b.certified) else table;
      if b.certified && CertifiedElsewhere(mid, id, b.year) then Outcome(mid, Some(BadRequest))
      else Outcome(mid[id := b], None)
  }

  function Patched(b: Book, p: Payload): Book
    requires !Incomplete(p)
  {
    Book(p.name.value, p.year, b.status, if p.docType.SetTo? then p.docType.value else b.docType,
         if p.isDefault.Some? then p.isDefault.value else b.isDefault,
         if p.certified.Some? then p.certified.value else b.certified)
  }

  /** Year 0 counts as no year here, though it is what gets stored. */
  function CheckedYear(b: Book, p: Payload): Option<int> {
    if p.year.Some? && p.year.value != 0 then p.year else b.year
  }

  function CheckedType(b: Book, p: Payload): Option<string> {
    if p.docType.SetTo? && p.docType.value.Some? && p.docType.value.value != "" then p.docType.value else b.docType
  }

  function Update(table: Table, collate: Collation, id: Id, p: Payload): Outcome {
    if Incomplete(p) then Outcome(table, Some(BadRequest))
    else if id !in table then Outcome(table, Some(NotFound))
    else
      var b := Patched(table[id], p);
      var mid := if p.isDefault == Some(true)
                 then Reset(table, collate, CheckedYear(table[id], p), CheckedType(table[id], p), id, b.certified)
                 else table;
      if p.certified == Some(true) && CertifiedElsewhere(mid, id, CheckedYear(table[id], p)) then Outcome(mid, Some(BadRequest))
      else Outcome(mid[id := b], None)
  }

  function Remove(table: Table, id: Id, mayView: bool): Outcome {
    if id !in table || table[id].status !in {ACTIVED, NOT_ACTIVED} then Outcome(table, Some(NotFound))
    else if !mayView then Outcome(table, Some(Forbidden))
    else Outcome(table[id := table[id].(status := DELETED)], None)
  }

  function NotDeleted(table: Table, ids: seq<Id>): set<Id> {
    set id | id in ids && id in table && table[id].status != DELETED
  }

  /** `inUse` are the books that incoming or outgoing documents refer to. */
  function RemoveMany(table: Table, ids: seq<Id>, inUse: set<Id>): Outcome {
    if ids == [] then Outcome(table, Some(BadRequest))
    else if forall id | id in ids :: id !in table then Outcome(table, Some(NotFound))
    else if NotDeleted(table, ids) == {} || NotDeleted(table, ids) * inUse != {} then Outcome(table, Some(BadRequest))
    else Outcome(map id | id in table :: if id in NotDeleted(table, ids) then table[id].(status := DELETED) else table[id], None)
  }

  // ---------- when the rules survive ----------

  /** The book written is one the reset has cleared the group for. */
  predicate ResetCovers(b: Book, collate: Collation)
    requires b.year.Some? && b.docType.Some?
  {
    b.year.value != 0 && collate(Trim(b.docType.value)) == collate(b.docType.value)
  }

  lemma ResetOnlyClears(table: Table, collate: Collation, year: Option<int>, docType: Option<string>, except: Id, certified: bool)
    ensures var after := Reset(table, collate, year, docType, except, certified);
            && after.Keys == table.Keys
            && (forall i | i in table :: after[i].(isDefault := table[i].isDefault) == table[i])
            && (forall i | i in table :: after[i].isDefault <==>
                  table[i].isDefault && (i == except || !Resettable(year, docType)
                                         || !ToReset(table[i], collate, year.value, docType.value, certified)))
  {
  }

  /** Clearing flags keeps both rules, and does not change what is certified. */
  lemma ResetKeeps(table: Table, collate: Collation, year: Option<int>, docType: Option<string>, except: Id, certified: bool)
    ensures var after := Reset(table, collate, year, docType, except, certified);
            && (OneDefault(table, collate) ==> OneDefault(after, collate)) && (OneCertified(table) ==> OneCertified(after))
            && forall id, y :: CertifiedElsewhere(after, id, y) <==> CertifiedElsewhere(table, id, y)
  {
    ResetOnlyClears(table, collate, year, docType, except, certified);
    var after := Reset(table, collate, year, docType, except, certified);
    forall id, y ensures CertifiedElsewhere(after, id, y) <==> CertifiedElsewhere(table, id, y) {
      if CertifiedElsewhere(table, id, y) {
        var i :| i in table && i != id && table[i].certified && table[i].status in {ACTIVED, NOT_ACTIVED}
                 && (y.None? || table[i].year == y);
        assert after[i].certified;
      }
    }
  }

  /** Writing one row into a table that keeps the rule keeps it exactly when the group is free of others. */
  lemma WritingKeepsDefaults(table: Table, collate: Collation, id: Id, b: Book)
    requires OneDefault(table, collate)
    ensures OneDefault(table[id := b], collate) <==> !Defaulted(b) || !GroupOccupied(table, id, b, collate)
  {
    var after := table[id := b];
    if Defaulted(b) && GroupOccupied(table, id, b, collate) {
      var i :| i in table && i != id && Defaulted(table[i]) && SameGroup(table[i], b, collate);
      assert Defaulted(after[i]) && Defaulted(after[id]) && SameGroup(after[i], after[id], collate);
    }
  }

  lemma WritingKeepsCertified(table: Table, id: Id, b: Book)
    requires OneCertified(table)
    ensures OneCertified(table[id := b]) <==> !Certified(b) || !CertifiedElsewhere(table, id, b.year)
  {
    var after := table[id := b];
    if Certified(b) && CertifiedElsewhere(table, id, b.year) {
      var i :| i in table && i != id && table[i].certified && table[i].status in {ACTIVED, NOT_ACTIVED} && table[i].year == b.year;
      assert Certified(after[i]) && Certified(after[id]) && after[i].year == after[id].year;
    }
  }

  /** The group of `b` after the reset made for it: free when the reset covers it, else as before. */
  lemma GroupAfterReset(table: Table, collate: Collation, id: Id, b: Book)
    requires Defaulted(b)
    ensures GroupOccupied(Reset(table, collate, b.year, b.docType, id, b.certified), id, b, collate) <==>
              GroupOccupied(table, id, b, collate) && !ResetCovers(b, collate)
  {
    var after := Reset(table, collate, b.year, b.docType, id, b.certified);
    ResetOnlyClears(table, collate, b.year, b.docType, id, b.certified);
    if GroupOccupied(table, id, b, collate) {
      var i :| i in table && i != id && Defaulted(table[i]) && SameGroup(table[i], b, collate);
      assert !ResetCovers(b, collate) ==> Defaulted(after[i]) && SameGroup(after[i], b, collate);
    }
  }

  /** What a creation is refused for. */
  predicate CreationRefused(table: Table, id: Id, p: Payload) {
    Incomplete(p) || (p.certified == Some(true) && CertifiedElsewhere(table, id, p.year))
  }

  /** What an update is refused for. */
  predicate UpdateRefused(table: Table, id: Id, p: Payload) {
    Incomplete(p) || id !in table || (p.certified == Some(true) && CertifiedElsewhere(table, id, CheckedYear(table[id], p)))
  }

  /** A creation keeps one default a group exactly in these cases, and always one certified book a year. */
  lemma CreateKeepsExactlyWhen(table: Table, collate: Collation, id: Id, p: Payload)
    requires OneDefault(table, collate) && id !in table
    ensures Create(table, collate, id, p).error.Some? <==> CreationRefused(table, id, p)
    ensures OneDefault(Create(table, collate, id, p).table, collate) <==>
              || CreationRefused(table, id, p)
              || !Defaulted(NewBook(p)) || ResetCovers(NewBook(p), collate)
              || !GroupOccupied(table, id, NewBook(p), collate)
    ensures OneCertified(table) ==> OneCertified(Create(table, collate, id, p).table)
  {
    if !Incomplete(p) {
      var b := NewBook(p);
      ResetKeeps(table, collate, b.year, b.docType, id, b.certified);
      var mid := if b.isDefault then Reset(table, collate, b.year, b.docType, id, b.certified) else table;
      WritingKeepsDefaults(mid, collate, id, b);
      if OneCertified(mid) { WritingKeepsCertified(mid, id, b); }
      if Defaulted(b) { GroupAfterReset(table, collate, id, b); }
    }
  }

  /** Sent as default, and stored under the very group that was reset. */
  predicate UpdateResets(b: Book, p: Payload, collate: Collation)
    requires b.year.Some? && b.docType.Some?
  {
    p.isDefault == Some(true) && ResetCovers(b, collate)
  }

  /** An update keeps one default a group exactly in these cases. */
  lemma UpdateKeepsDefaultsExactlyWhen(table: Table, collate: Collation, id: Id, p: Payload)
    requires OneDefault(table, collate)
    ensures Update(table, collate, id, p).error.Some? <==> UpdateRefused(table, id, p)
    ensures OneDefault(Update(table, collate, id, p).table, collate) <==>
              || UpdateRefused(table, id, p)
              || var b := Patched(table[id], p);
                 !Defaulted(b) || UpdateResets(b, p, collate) || !GroupOccupied(table, id, b, collate)
  {
    if !Incomplete(p) && id in table {
      var b := Patched(table[id], p);
      var year, docType := CheckedYear(table[id], p), CheckedType(table[id], p);
      ResetKeeps(table, collate, year, docType, id, b.certified);
      var mid := if p.isDefault == Some(true) then Reset(table, collate, year, docType, id, b.certified) else table;
      WritingKeepsDefaults(mid, collate, id, b);
      if Defaulted(b) && p.isDefault == Some(true) {
        assert docType == b.docType;
        if p.year.value != 0 {
          GroupAfterReset(table, collate, id, b);
        } else {
          OtherYearReset(table, collate, id, b, year);
        }
      }
    }
  }

  /** A reset of another year leaves the group of `b` as it was. */
  lemma OtherYearReset(table: Table, collate: Collation, id: Id, b: Book, year: Option<int>)
    requires Defaulted(b) && b.year == Some(0)
    ensures GroupOccupied(Reset(table, collate, year, b.docType, id, b.certified), id, b, collate) <==>
              GroupOccupied(table, id, b, collate)
  {
    var after := Reset(table, collate, year, b.docType, id, b.certified);
    ResetOnlyClears(table, collate, year, b.docType, id, b.certified);
    if GroupOccupied(table, id, b, collate) {
      var i :| i in table && i != id && Defaulted(table[i]) && SameGroup(table[i], b, collate);
      assert Defaulted(after[i]) && SameGroup(after[i], b, collate);
    }
  }

  /** An update keeps one certified book a year exactly in these cases. */
  lemma UpdateKeepsCertifiedExactlyWhen(table: Table, collate: Collation, id: Id, p: Payload)
    requires OneCertified(table)
    ensures OneCertified(Update(table, collate, id, p).table) <==>
              || UpdateRefused(table, id, p)
              || var b := Patched(table[id], p);
                 !Certified(b) || (p.certified == Some(true) && b.year != Some(0)) || !CertifiedElsewhere(table, id, b.year)
  {
    if !Incomplete(p) && id in table {
      var b := Patched(table[id], p);
      var year, docType := CheckedYear(table[id], p), CheckedType(table[id], p);
      ResetKeeps(table, collate, year, docType, id, b.certified);
      var mid := if p.isDefault == Some(true) then Reset(table, collate, year, docType, id, b.certified) else table;
      WritingKeepsCertified(mid, id, b);
    }
  }

  /** Rows are unchanged or become deleted. */
  ghost predicate OnlyDeletes(table: Table, after: Table) {
    after.Keys == table.Keys && forall i | i in table :: after[i] == table[i] || after[i] == table[i].(status := DELETED)
  }

  /** Removals, refused ones included, only delete, and so keep both rules. */
  lemma RemovalsOnlyDelete(table: Table, id: Id, mayView: bool, ids: seq<Id>, inUse: set<Id>)
    ensures OnlyDeletes(table, Remove(table, id, mayView).table)
    ensures OnlyDeletes(table, RemoveMany(table, ids, inUse).table)
    ensures forall i | i in table && RemoveMany(table, ids, inUse).table[i] != table[i] :: i in ids && i !in inUse
  {
    var gone := NotDeleted(table, ids);
    if gone * inUse == {} {
      assert forall i | i in gone && i in inUse :: i in gone * inUse;
    }
  }

  // ---------- what a call stores, field by field ----------

  /** Another book with the flag, not deleted, of that year, or of any when there is none to look for. */
  ghost predicate YearHasCertified(table: Table, id: Id, year: Option<int>) {
    exists i :: i in table && i != id && table[i].certified && (table[i].status == 0 || table[i].status == 1)
                && (year == None || table[i].year == year)
  }

  /** Not deleted, of this year and certification, with a type the database holds equal to the trimmed one. */
  ghost predicate InGroup(b: Book, collate: Collation, year: int, docType: string, certified: bool) {
    && b.status != 3 && b.year == Some(year) && b.certified == certified
    && exists t :: b.docType == Some(t) && collate(t) == collate(Trim(docType))
  }

  /** The same book without the default flag. */
  ghost predicate Cleared(before: Book, after: Book) {
    && !after.isDefault && after.name == before.name && after.year == before.year && after.status == before.status
    && after.docType == before.docType && after.certified == before.certified
  }

  /** Besides `id`, exactly the books of the group are cleared; without a year, or a type, none is. */
  ghost predicate ClearsGroup(table: Table, after: Table, collate: Collation, id: Id,
                              year: Option<int>, docType: Option<string>, certified: bool) {
    forall i | i in table && i != id ::
      && i in after
      && if year.Some? && year.value != 0 && docType.Some? && docType.value != "" && InGroup(table[i], collate, year.value, docType.value, certified)
         then Cleared(table[i], after[i]) else after[i] == table[i]
  }

  lemma ResetClearsGroup(table: Table, collate: Collation, year: Option<int>, docType: Option<string>, except: Id, certified: bool)
    ensures ClearsGroup(table, Reset(table, collate, year, docType, except, certified), collate, except, year, docType, certified)
    ensures Reset(table, collate, year, docType, except, certified).Keys == table.Keys
    ensures except in table ==> Reset(table, collate, year, docType, except, certified)[except] == table[except]
    ensures forall y :: YearHasCertified(Reset(table, collate, year, docType, except, certified), except, y) <==>
                        YearHasCertified(table, except, y)
  {
    ResetKeeps(table, collate, year, docType, except, certified);
    var after := Reset(table, collate, year, docType, except, certified);
    forall y ensures YearHasCertified(after, except, y) <==> YearHasCertified(table, except, y) {
      assert YearHasCertified(after, except, y) <==> CertifiedElsewhere(after, except, y);
      assert YearHasCertified(table, except, y) <==> CertifiedElsewhere(table, except, y);
    }
  }

  /** A name that is not blank and a year are given. */
  ghost predicate Filled(p: Payload) {
    p.year.Some? && p.name.Some? && exists i :: 0 <= i < |p.name.value| && !White(p.name.value[i])
  }

  lemma FilledExactly(p: Payload)
    ensures Filled(p) <==> !Incomplete(p)
  {
  }

  /**
   A creation with a name and a year, unless certified in a year that has such a book, stores a live book
   as sent, with no type and no flag where none is sent. Sent as default it clears the flags of its group
   first, also when it is refused after that.
   */
  lemma StoredAfterCreation(table: Table, collate: Collation, id: Id, p: Payload)
    requires id !in table
    ensures var out := Create(table, collate, id, p);
            && (out.error == None <==> Filled(p) && (p.certified == Some(true) ==> !YearHasCertified(table, id, p.year)))
            && (out.error != None ==> out.error == Some(BadRequest))
            && out.table.Keys == table.Keys + (if out.error == None then {id} else {})
            && (out.error == None ==>
                  && Some(out.table[id].name) == p.name && out.table[id].year == p.year && out.table[id].status == 1
                  && out.table[id].docType == (match p.docType case SetTo(t) => t case Keep => None)
                  && (out.table[id].isDefault <==> p.isDefault == Some(true))
                  && (out.table[id].certified <==> p.certified == Some(true)))
            && (if Filled(p) && p.isDefault == Some(true)
                then ClearsGroup(table, out.table, collate, id, p.year,
                                 match p.docType case SetTo(t) => t case Keep => None, p.certified == Some(true))
                else forall i | i in table :: out.table[i] == table[i])
  {
    FilledExactly(p);
    if !Incomplete(p) {
      var b := NewBook(p);
      ResetClearsGroup(table, collate, b.year, b.docType, id, b.certified);
      assert YearHasCertified(table, id, b.year) <==> CertifiedElsewhere(table, id, b.year);
      var mid := Reset(table, collate, b.year, b.docType, id, b.certified);
      assert YearHasCertified(mid, id, b.year) <==> CertifiedElsewhere(mid, id, b.year);
    }
  }

  /** The year, the type and the certification whose group an update clears, the stored ones standing in for empty ones. */
  ghost predicate UpdateClears(table: Table, after: Table, collate: Collation, id: Id, p: Payload)
    requires id in table
  {
    exists year, docType, certified ::
      && (if p.year.Some? && p.year != Some(0) then year == p.year else year == table[id].year)
      && (if p.docType.SetTo? && p.docType.value.Some? && p.docType.value.value != "" then docType == p.docType.value
          else docType == table[id].docType)
      && certified == (match p.certified case Some(c) => c case None => table[id].certified)
      && ClearsGroup(table, after, collate, id, year, docType, certified)
  }

  /**
   An update with a name and a year of a book that is there, unless certified in a year that has another
   such book, stores name and year as sent, type and flags as sent where they are, and leaves the status.
   Sent as default it clears the flags of the group first, also when it is refused after that.
   */
  lemma StoredAfterUpdate(table: Table, collate: Collation, id: Id, p: Payload)
    ensures var out := Update(table, collate, id, p);
            && (out.error == None <==>
                  && Filled(p) && id in table
                  && (p.certified == Some(true) ==>
                        !YearHasCertified(table, id, if p.year == Some(0) then table[id].year else p.year)))
            && (out.error == Some(NotFound) <==> Filled(p) && id !in table) && out.error != Some(Forbidden)
            && out.table.Keys == table.Keys
            && (out.error == None ==>
                  && Some(out.table[id].name) == p.name && out.table[id].year == p.year
                  && out.table[id].status == table[id].status
                  && out.table[id].docType == (match p.docType case SetTo(t) => t case Keep => table[id].docType)
                  && out.table[id].isDefault == (match p.isDefault case Some(d) => d case None => table[id].isDefault)
                  && out.table[id].certified == (match p.certified case Some(c) => c case None => table[id].certified))
            && (out.error != None && id in table ==> out.table[id] == table[id])
            && (if Filled(p) && id in table && p.isDefault == Some(true) then UpdateClears(table, out.table, collate, id, p)
                else forall i | i in table && i != id :: out.table[i] == table[i])
  {
    FilledExactly(p);
    if !Incomplete(p) && id in table {
      var year, docType, b := CheckedYear(table[id], p), CheckedType(table[id], p), Patched(table[id], p);
      ResetClearsGroup(table, collate, year, docType, id, b.certified);
      var mid := Reset(table, collate, year, docType, id, b.certified);
      assert YearHasCertified(mid, id, year) <==> CertifiedElsewhere(mid, id, year);
      assert YearHasCertified(table, id, year) <==> CertifiedElsewhere(table, id, year);
      if p.isDefault == Some(true) {
        assert ClearsGroup(table, Update(table, collate, id, p).table, collate, id, year, docType, b.certified);
      }
    }
  }

  /** `b` is a default book, and no other that is not deleted is one of its year, type and certification. */
  ghost predicate TheDefault(table: Table, collate: Collation, id: Id) {
    && id in table && table[id].isDefault && table[id].docType.Some?
    && forall i | i in table && i != id && table[i].isDefault && table[i].status != 3 && table[i].docType.Some? ::
         !(table[i].year == table[id].year && table[i].certified == table[id].certified
           && collate(table[i].docType.value) == collate(table[id].docType.value))
  }

  /** A book created as default, of a year other than 0 and a type that trimming leaves the same, is the default of its group. */
  lemma CreatedDefaultIsTheOnlyOne(table: Table, collate: Collation, id: Id, p: Payload)
    requires id !in table && p.isDefault == Some(true) && Create(table, collate, id, p).error == None
    requires p.year != Some(0) && p.docType.SetTo? && p.docType.value.Some? && p.docType.value.value != ""
    requires collate(Trim(p.docType.value.value)) == collate(p.docType.value.value)
    ensures TheDefault(Create(table, collate, id, p).table, collate, id)
  {
    StoredAfterCreation(table, collate, id, p);
  }

  /** So is a book updated as default, of a year other than 0 and with such a type, sent or kept. */
  lemma UpdatedDefaultIsTheOnlyOne(table: Table, collate: Collation, id: Id, p: Payload)
    requires p.isDefault == Some(true) && Update(table, collate, id, p).error == None
    requires var b := Update(table, collate, id, p).table;
             && id in b && b[id].year != Some(0) && b[id].docType.Some? && b[id].docType.value != ""
             && collate(Trim(b[id].docType.value)) == collate(b[id].docType.value)
    ensures TheDefault(Update(table, collate, id, p).table, collate, id)
  {
    StoredAfterUpdate(table, collate, id, p);
  }

  /** Removing marks the one book, which has to be there, not deleted, and visible to the caller. */
  lemma StoredAfterRemoval(table: Table, id: Id, mayView: bool)
    ensures var out := Remove(table, id, mayView);
            && (out.error == None <==> id in table && (table[id].status == 0 || table[id].status == 1) && mayView)
            && (out.error == Some(NotFound) <==> !(id in table && (table[id].status == 0 || table[id].status == 1)))
            && out.error != Some(BadRequest)
            && out.table == (if out.error == None then table[id := table[id].(status := 3)] else table)
  {
  }

  /** Removing several marks those not yet deleted; it is refused when there is none, or a document uses one. */
  lemma StoredAfterRemovals(table: Table, ids: seq<Id>, inUse: set<Id>)
    ensures var out := RemoveMany(table, ids, inUse);
            && (out.error == None <==>
                  && (exists i :: i in ids && i in table && table[i].status != 3)
                  && (forall i | i in ids && i in table && table[i].status != 3 :: i !in inUse))
            && (out.error == Some(NotFound) <==> ids != [] && forall i | i in ids :: i !in table) && out.error != Some(Forbidden)
            && out.table.Keys == table.Keys
            && forall i | i in table ::
                 out.table[i] == if out.error == None && i in ids then table[i].(status := 3) else table[i]
  {
    var gone := NotDeleted(table, ids);
    if i :| i in ids && i in table && table[i].status != 3 {
      assert i in gone;
    }
    HasMember(gone);
    HasMember(gone * inUse);
    assert forall i :: i in gone * inUse <==> i in gone && i in inUse;
  }

  // ---------- runs ----------

  datatype Call =
    | CreateBook(id: Id, p: Payload)
    | UpdateBook(id: Id, p: Payload)
    | RemoveBook(id: Id, mayView: bool)
    | RemoveBooks(ids: seq<Id>, inUse: set<Id>)

  function Next(table: Table, collate: Collation, call: Call): Outcome {
    match call
    case CreateBook(id, p) => Create(table, collate, id, p)
    case UpdateBook(id, p) => Update(table, collate, id, p)
    case RemoveBook(id, mayView) => Remove(table, id, mayView)
    case RemoveBooks(ids, inUse) => RemoveMany(table, ids, inUse)
  }

  /**
   Requests that send both flags along with any change of a default or certified book's group, with a
   year other than 0 and a type whose trimmed form is equal to it.
   */
  predicate Careful(table: Table, collate: Collation, call: Call) {
    match call
    case CreateBook(id, p) =>
      id !in table && (!Incomplete(p) && Defaulted(NewBook(p)) ==> ResetCovers(NewBook(p), collate))
    case UpdateBook(id, p) =>
      !Incomplete(p) && id in table ==>
        var old_, b := table[id], Patched(table[id], p);
        && (Defaulted(b) ==> UpdateResets(b, p, collate) || (Defaulted(old_) && SameGroup(b, old_, collate)))
        && (Certified(b) ==> (p.certified == Some(true) && b.year != Some(0)) || (Certified(old_) && b.year == old_.year))
    case _ => true
  }

  lemma CarefulStepKeeps(table: Table, collate: Collation, call: Call)
    requires OneDefault(table, collate) && OneCertified(table) && Careful(table, collate, call)
    ensures OneDefault(Next(table, collate, call).table, collate) && OneCertified(Next(table, collate, call).table)
  {
    match call
    case CreateBook(id, p) => CreateKeepsExactlyWhen(table, collate, id, p);
    case UpdateBook(id, p) =>
      UpdateKeepsDefaultsExactlyWhen(table, collate, id, p);
      UpdateKeepsCertifiedExactlyWhen(table, collate, id, p);
    case RemoveBook(id, mayView) =>
      RemovalsOnlyDelete(table, id, mayView, [], {});
    case RemoveBooks(ids, inUse) =>
      RemovalsOnlyDelete(table, 0, false, ids, inUse);
  }

  ghost predicate Run(states: seq<Table>, calls: seq<Call>, collate: Collation) {
    |states| == |calls| + 1
    && forall i | 0 <= i < |calls| :: states[i + 1] == Next(states[i], collate, calls[i]).table
  }

  /** Over every run of careful requests, refused ones included, both rules hold throughout. */
  lemma {:induction false} CarefulRunKeeps(states: seq<Table>, calls: seq<Call>, collate: Collation, n: nat)
    requires Run(states, calls, collate) && n <= |calls|
    requires forall i | 0 <= i < n :: Careful(states[i], collate, calls[i])
    requires OneDefault(states[0], collate) && OneCertified(states[0])
    ensures OneDefault(states[n], collate) && OneCertified(states[n])
  {
    if n > 0 {
      CarefulRunKeeps(states, calls, collate, n - 1);
      CarefulStepKeeps(states[n - 1], collate, calls[n - 1]);
    }
  }

  // ---------- what goes wrong otherwise ----------

  /** Two creations with an untrimmed type leave two default books in one group. */
  lemma UntrimmedTypeGivesTwoDefaults(collate: Collation)
    requires collate(Trim(" A")) != collate(" A")
    ensures var p := Payload(Some("Book"), Some(2024), SetTo(Some(" A")), Some(true), None);
            !OneDefault(Create(Create(map[], collate, 1, p).table, collate, 2, p).table, collate)
  {
    var p := Payload(Some("Book"), Some(2024), SetTo(Some(" A")), Some(true), None);
    assert !White('B') && "Book"[0] == 'B';
    assert OneDefault(map[], collate);
    CreateKeepsExactlyWhen(map[], collate, 1, p);
    var one := Create(map[], collate, 1, p).table;
    assert one == map[1 := NewBook(p)];
    assert one[1] == NewBook(p) && Defaulted(one[1]) && SameGroup(one[1], NewBook(p), collate);
    CreateKeepsExactlyWhen(one, collate, 2, p);
  }

  /** Moving a certified book to another year without sending the flag gives that year two. */
  lemma UnflaggedMoveGivesTwoCertified(table: Table, collate: Collation, id: Id, other: Id, year: int)
    requires OneDefault(table, collate) && OneCertified(table)
    requires id in table && other in table && other != id && Certified(table[id]) && Certified(table[other])
    requires table[other].year == Some(year)
    ensures !OneCertified(Update(table, collate, id, Payload(Some("Book"), Some(year), Keep, None, None)).table)
  {
    var p := Payload(Some("Book"), Some(year), Keep, None, None);
    assert !White('B') && "Book"[0] == 'B';
    assert other in table && other != id && table[other].certified && table[other].year == Some(year);
    assert CertifiedElsewhere(table, id, Some(year));
    UpdateKeepsCertifiedExactlyWhen(table, collate, id, p);
  }

  /** A creation refused for its certified flag has already cleared the default of its group. */
  lemma RefusedCreationClearsDefault(table: Table, collate: Collation, id: Id, p: Payload)
    requires !Incomplete(p) && Defaulted(NewBook(p)) && NewBook(p).certified && ResetCovers(NewBook(p), collate)
    requires id !in table && CertifiedElsewhere(table, id, p.year) && OneDefault(table, collate)
    ensures var out := Create(table, collate, id, p);
            && out.error == Some(BadRequest)
            && !GroupOccupied(out.table, id, NewBook(p), collate)
            && (GroupOccupied(table, id, NewBook(p), collate) ==> out.table != table)
  {
    var b := NewBook(p);
    ResetKeeps(table, collate, b.year, b.docType, id, b.certified);
    GroupAfterReset(table, collate, id, b);
  }

  // ---------- the service ----------

  class BookService {
    const collate: Collation
    var table: Table

    constructor (collate: Collation)
      ensures table == map[] && this.collate == collate
    {
      this.collate, table := collate, map[];
    }

    method HandleIsDefaultConstraint(year: Option<int>, docType: Option<string>, except: Id, certified: bool)
      modifies this`table
      ensures table == Reset(old(table), collate, year, docType, except, certified)
    {
      if year.None? || year.value == 0 || docType.None? || docType.value == "" {
        return;
      }
      var trimmed := Trim(docType.value);
      table := map i | i in table ::
        if table[i].year == year && table[i].docType.Some? && collate(table[i].docType.value) == collate(trimmed)
           && table[i].certified == certified && table[i].status != DELETED && i != except
        then table[i].(isDefault := false) else table[i];
    }

    method CreateBook(id: Id, p: Payload) returns (error: Option<Error>)
      requires id !in table
      modifies this`table
      ensures Outcome(table, error) == Next(old(table), collate, Call.CreateBook(id, p))
    {
      if p.name.None? || Blank(p.name.value) || p.year.None? {
        return Some(BadRequest);
      }
      var docType := if p.docType.SetTo? then p.docType.value else None;
      if p.isDefault == Some(true) {
        HandleIsDefaultConstraint(p.year, docType, id, p.certified == Some(true));
      }
      if p.certified == Some(true) {
        if CertifiedElsewhere(table, id, p.year) {
          return Some(BadRequest);
        }
      }
      table := table[id := Book(p.name.value, p.year, ACTIVED, docType, p.isDefault == Some(true), p.certified == Some(true))];
      error := None;
    }

    method UpdateBook(id: Id, p: Payload) returns (error: Option<Error>)
      modifies this`table
      ensures Outcome(table, error) == Next(old(table), collate, Call.UpdateBook(id, p))
    {
      if p.name.None? || Blank(p.name.value) || p.year.None? {
        return Some(BadRequest);
      }
      if p.isDefault == Some(true) && id in table {
        var certified := if p.certified.Some? then p.certified == Some(true) else table[id].certified;
        HandleIsDefaultConstraint(CheckedYear(table[id], p), CheckedType(table[id], p), id, certified);
      }
      if p.certified == Some(true) && id in table {
        if CertifiedElsewhere(table, id, CheckedYear(table[id], p)) {
          return Some(BadRequest);
        }
      }
      if id !in table {
        return Some(NotFound);
      }
      table := table[id := Patched(table[id], p)];
      error := None;
    }

    method RemoveBook(id: Id, mayView: bool) returns (error: Option<Error>)
      modifies this`table
      ensures Outcome(table, error) == Next(old(table), collate, Call.RemoveBook(id, mayView))
    {
      if id !in table || table[id].status !in {ACTIVED, NOT_ACTIVED} {
        return Some(NotFound);
      }
      if !mayView {
        return Some(Forbidden);
      }
      table := table[id := table[id].(status := DELETED)];
      error := None;
    }

    method RemoveBooks(ids: seq<Id>, inUse: set<Id>) returns (error: Option<Error>, removed: nat)
      modifies this`table
      ensures Outcome(table, error) == Next(old(table), collate, Call.RemoveBooks(ids, inUse))
      ensures error.None? ==> removed == |NotDeleted(old(table), ids)| && removed > 0
    {
      removed := 0;
      if |ids| == 0 {
        return Some(BadRequest), 0;
      }
      if forall id | id in ids :: id !in table {
        return Some(NotFound), 0;
      }
      var activeIds := NotDeleted(table, ids);
      if activeIds == {} || activeIds * inUse != {} {
        return Some(BadRequest), 0;
      }
      table := map id | id in table :: if id in activeIds then table[id].(status := DELETED) else table[id];
      error, removed := None, |activeIds|;
    }
  }
}
