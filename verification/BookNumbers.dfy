/**
 The next free number of a document book, as suggested in lists and as reserved
 (backend_nest/src/book-documents/book-documents.service.ts and document-number-reservation.service.ts).
 */
module BookNumbers {
  import opened Prelude
  import opened Decimals

  /** Status 1 is held, 2 is used; any other status frees the number. */
  datatype Reservation = Reservation(book: int, number: int, status: int)

  datatype Outgoing = Outgoing(book: Option<int>, toBook: Option<int>, releaseNo: Option<string>)

  /** Maps texts the database holds equal to one text. */
  type Collation = string -> string

  /** Equal numbers are the only ones printed as equal texts. */
  ghost predicate SeparatesNumbers(collate: Collation) {
    forall m, n :: collate(PrintInt(m)) == collate(PrintInt(n)) ==> m == n
  }

  datatype Store = Store(reservations: seq<Reservation>, outgoing: seq<Outgoing>, collate: Collation)

  predicate Holds(r: Reservation, book: int, number: int) {
    r.book == book && r.number == number && r.status in {1, 2}
  }

  predicate Uses(o: Outgoing, book: int, number: int, collate: Collation) {
    o.book == Some(book)
    && (o.toBook == Some(number) || (o.releaseNo.Some? && collate(o.releaseNo.value) == collate(PrintInt(number))))
  }

  predicate Reserved(store: Store, book: int, number: int) {
    exists i :: 0 <= i < |store.reservations| && Holds(store.reservations[i], book, number)
  }

  predicate Issued(store: Store, book: int, number: int) {
    exists i :: 0 <= i < |store.outgoing| && Uses(store.outgoing[i], book, number, store.collate)
  }

  /** Reserved, used, or released as an outgoing document's number. */
  predicate Taken(store: Store, book: int, number: int) {
    Reserved(store, book, number) || Issued(store, book, number)
  }

  /** Taken is a number of the book that is held or used, is the book number of an outgoing document, or is its release number's text. */
  lemma TakenExactly(store: Store, book: int, number: int)
    ensures Taken(store, book, number) <==>
              || (exists r :: r in store.reservations && r.book == book && r.number == number && (r.status == 1 || r.status == 2))
              || (exists o :: o in store.outgoing && o.book == Some(book)
                    && (o.toBook == Some(number)
                        || (o.releaseNo.Some? && store.collate(o.releaseNo.value) == store.collate(PrintInt(number)))))
  {
    if r :| r in store.reservations && r.book == book && r.number == number && (r.status == 1 || r.status == 2) {
      var i :| 0 <= i < |store.reservations| && store.reservations[i] == r;
      assert Holds(store.reservations[i], book, number);
    }
    if o :| o in store.outgoing && o.book == Some(book)
            && (o.toBook == Some(number)
                || (o.releaseNo.Some? && store.collate(o.releaseNo.value) == store.collate(PrintInt(number)))) {
      var i :| 0 <= i < |store.outgoing| && store.outgoing[i] == o;
      assert Uses(store.outgoing[i], book, number, store.collate);
    }
  }

  // ---------- finitely many numbers are taken ----------

  ghost function Released(o: Outgoing, collate: Collation): set<int>
    requires SeparatesNumbers(collate)
  {
    if o.releaseNo.Some? && exists n :: collate(PrintInt(n)) == collate(o.releaseNo.value) then
      var n :| collate(PrintInt(n)) == collate(o.releaseNo.value); {n}
    else {}
  }

  ghost function NumbersOf(outgoing: seq<Outgoing>, collate: Collation): set<int>
    requires SeparatesNumbers(collate)
  {
    if outgoing == [] then {}
    else
      var o := outgoing[0];
      NumbersOf(outgoing[1..], collate) + (if o.toBook.Some? then {o.toBook.value} else {}) + Released(o, collate)
  }

  lemma {:induction false} NumbersCover(outgoing: seq<Outgoing>, collate: Collation, i: nat, book: int, number: int)
    requires SeparatesNumbers(collate) && i < |outgoing| && Uses(outgoing[i], book, number, collate)
    ensures number in NumbersOf(outgoing, collate)
  {
    if i > 0 {
      NumbersCover(outgoing[1..], collate, i - 1, book, number);
    } else if outgoing[0].toBook != Some(number) {
      var text := outgoing[0].releaseNo.value;
      assert collate(PrintInt(number)) == collate(text);
      var n :| n in Released(outgoing[0], collate);
      assert collate(PrintInt(n)) == collate(PrintInt(number));
    }
  }

  /** A finite set with every number taken in any book. */
  ghost function Candidates(store: Store): set<int>
    requires SeparatesNumbers(store.collate)
  {
    (set r | r in store.reservations :: r.number) + NumbersOf(store.outgoing, store.collate)
  }

  /** The numbers a search from `number` can still meet. */
  ghost function Ahead(store: Store, number: int): set<int>
    requires SeparatesNumbers(store.collate)
  {
    set n | n in Candidates(store) && n >= number
  }

  lemma TakenIsCandidate(store: Store, book: int, number: int)
    requires SeparatesNumbers(store.collate) && Taken(store, book, number)
    ensures number in Candidates(store)
  {
    if Reserved(store, book, number) {
      var i :| 0 <= i < |store.reservations| && Holds(store.reservations[i], book, number);
      assert store.reservations[i] in store.reservations;
    } else {
      var i :| 0 <= i < |store.outgoing| && Uses(store.outgoing[i], book, number, store.collate);
      NumbersCover(store.outgoing, store.collate, i, book, number);
    }
  }

  lemma TakenRunOut(store: Store, book: int, number: int)
    requires SeparatesNumbers(store.collate) && Taken(store, book, number)
    ensures Ahead(store, number + 1) < Ahead(store, number)
  {
    TakenIsCandidate(store, book, number);
    assert number in Ahead(store, number) && number !in Ahead(store, number + 1);
  }

  // ---------- the search ----------

  /** The least free number not below the start. */
  ghost predicate Suggestion(store: Store, book: int, start: int, number: int) {
    && start <= number && !Taken(store, book, number)
    && forall n | start <= n < number :: Taken(store, book, n)
  }

  /** The search loop of both services; the numbers ahead that are taken run out. */
  method FirstFree(store: Store, book: int, start: int) returns (number: int)
    requires SeparatesNumbers(store.collate)
    ensures Suggestion(store, book, start, number)
  {
    number := start;
    var isTaken := true;
    while isTaken
      invariant start <= number && forall n | start <= n < number :: Taken(store, book, n)
      invariant !isTaken ==> !Taken(store, book, number)
      decreases Ahead(store, number), isTaken
    {
      if Reserved(store, book, number) || Issued(store, book, number) {
        TakenRunOut(store, book, number);
        number := number + 1;
      } else {
        isTaken := false;
      }
    }
  }

  /** Searching again from any number between the start and the suggestion gives the suggestion again. */
  lemma SearchingAgain(store: Store, book: int, start: int, number: int, again: int, found: int)
    requires Suggestion(store, book, start, number) && start <= again <= number
    requires Suggestion(store, book, again, found)
    ensures found == number
  {
  }

  /** The suggestion is ahead of the start by at most as many numbers as are taken in all. */
  lemma SuggestionIsNear(store: Store, book: int, start: int, number: int)
    requires SeparatesNumbers(store.collate) && Suggestion(store, book, start, number)
    ensures number - start <= |Candidates(store)|
  {
    var passed := Range(start, number);
    forall n | n in passed ensures n in Candidates(store) {
      TakenIsCandidate(store, book, n);
    }
    SubsetSize(passed, Candidates(store));
  }

  ghost function Range(low: int, high: int): (r: set<int>)
    requires low <= high
    ensures |r| == high - low && forall n :: n in r <==> low <= n < high
    decreases high - low
  {
    if low == high then {} else Range(low, high - 1) + {high - 1}
  }

  lemma {:induction false} SubsetSize(a: set<int>, b: set<int>)
    requires a <= b
    ensures |a| <= |b|
  {
    if a != {} {
      HasMember(a);
      var x :| x in a;
      SubsetSize(a - {x}, b - {x});
    }
  }

  // ---------- the list ----------

  /** A listed book; one without identifier is left as it is. */
  datatype Listed = Listed(id: Option<int>, count: Option<int>)

  function Start(item: Listed): int {
    if item.count.Some? then item.count.value else 0
  }

  ghost predicate Adjusted(store: Store, before: Listed, after: Listed) {
    if before.id.None? || before.id.value == 0 then after == before
    else after.id == before.id && after.count.Some?
         && Suggestion(store, before.id.value, Start(before), after.count.value)
  }

  method AdjustBookDocumentCounts(store: Store, items: array<Listed>)
    requires SeparatesNumbers(store.collate)
    modifies items
    ensures forall i | 0 <= i < items.Length :: Adjusted(store, old(items[i]), items[i])
    ensures forall i | 0 <= i < items.Length && (old(items[i]).id == None || old(items[i]).id == Some(0)) :: items[i] == old(items[i])
    ensures forall i | 0 <= i < items.Length && old(items[i]).id != None && old(items[i]).id != Some(0) ::
              && items[i].id == old(items[i]).id && items[i].count.Some?
              && Suggestion(store, items[i].id.value, match old(items[i]).count case Some(n) => n case None => 0, items[i].count.value)
  {
    var i := 0;
    while i < items.Length
      invariant 0 <= i <= items.Length
      invariant forall j | 0 <= j < i :: Adjusted(store, old(items[j]), items[j])
      invariant forall j | i <= j < items.Length :: items[j] == old(items[j])
    {
      var item := items[i];
      if item.id.Some? && item.id.value != 0 {
        var next := FirstFree(store, item.id.value, Start(item));
        items[i] := item.(count := Some(next));
      }
      i := i + 1;
    }
  }

  /** Adjusting an adjusted list changes nothing. */
  lemma AdjustingTwice(store: Store, before: seq<Listed>, once: seq<Listed>, twice: seq<Listed>)
    requires |before| == |once| == |twice|
    requires forall i | 0 <= i < |before| :: Adjusted(store, before[i], once[i]) && Adjusted(store, once[i], twice[i])
    ensures twice == once
  {
  }

  // ---------- reservations ----------

  /** The filtered unique index: a number is held or used once in a book. */
  ghost predicate UniqueNumbers(reservations: seq<Reservation>) {
    forall i, j | 0 <= i < j < |reservations| && reservations[i].status in {1, 2} && reservations[j].status in {1, 2} ::
      reservations[i].book != reservations[j].book || reservations[i].number != reservations[j].number
  }

  datatype Error = NotFound | Conflict

  /** The largest number of a book's reservations of any status; 0 without any. */
  function MaxReserved(reservations: seq<Reservation>, book: int): Option<int> {
    if reservations == [] then None
    else
      var n := |reservations| - 1;
      var before := MaxReserved(reservations[..n], book);
      var r := reservations[n];
      if r.book != book || (before.Some? && before.value >= r.number) then before else Some(r.number)
  }

  lemma {:induction false} MaxReservedIsMax(reservations: seq<Reservation>, book: int)
    ensures var max := MaxReserved(reservations, book);
            && (forall r | r in reservations && r.book == book :: max.Some? && r.number <= max.value)
            && (max.Some? ==> exists r :: r in reservations && r.book == book && r.number == max.value)
  {
    if reservations != [] {
      var n := |reservations| - 1;
      MaxReservedIsMax(reservations[..n], book);
      assert reservations == reservations[..n] + [reservations[n]];
    }
  }

  function Larger(a: int, b: int): int {
    if a < b then b else a
  }

  class ReservationService {
    /** Stored count by book. */
    var books: map<int, Option<int>>
    var store: Store

    ghost predicate Valid()
      reads this
    {
      SeparatesNumbers(store.collate) && UniqueNumbers(store.reservations)
    }

    constructor (books: map<int, Option<int>>, outgoing: seq<Outgoing>, collate: Collation)
      requires SeparatesNumbers(collate)
      ensures Valid() && this.books == books && store == Store([], outgoing, collate)
    {
      this.books, store := books, Store([], outgoing, collate);
    }

    function Count(book: int): int
      requires book in books
      reads this
    {
      Start(Listed(Some(book), books[book]))
    }

    /** The number asked for when it is free and not below the count; by default (absent or 0) the first free one. */
    method CreateReservation(book: int, asked: Option<int>) returns (error: Option<Error>, number: int)
      requires Valid()
      modifies this`store
      ensures Valid()
      ensures error == Some(NotFound) <==> book !in books
      ensures error == Some(Conflict) <==>
                && book in books && asked.Some? && asked.value != 0
                && (Taken(old(store), book, asked.value)
                    || asked.value < match books[book] case Some(n) => n case None => 0)
      ensures error.Some? ==> store == old(store)
      ensures error.None? ==>
                && store == old(store).(reservations := old(store).reservations + [Reservation(book, number, 1)])
                && !Taken(old(store), book, number) && Taken(store, book, number)
                && (match books[book] case Some(n) => n case None => 0) <= number
                && if asked.Some? && asked.value != 0 then number == asked.value
                   else
                     var max := match MaxReserved(old(store).reservations, book) case Some(n) => n case None => 0;
                     var count := match books[book] case Some(n) => n case None => 0;
                     Suggestion(old(store), book, if max > count then max else count, number)
    {
      number := 0;
      if book !in books {
        return Some(NotFound), number;
      }
      var bookCount := Count(book);
      if asked.Some? && asked.value != 0 {
        number := asked.value;
        if Reserved(store, book, number) || Issued(store, book, number) || number < bookCount {
          return Some(Conflict), number;
        }
      } else {
        var max := MaxReserved(store.reservations, book);
        number := FirstFree(store, book, Larger(if max.Some? then max.value else 0, bookCount));
      }
      ReservingKeepsUnique(store, book, number);
      store := store.(reservations := store.reservations + [Reservation(book, number, 1)]);
      error := None;
    }
  }

  /** Reserving a free number keeps numbers unique. */
  lemma ReservingKeepsUnique(store: Store, book: int, number: int)
    requires UniqueNumbers(store.reservations) && !Taken(store, book, number)
    ensures UniqueNumbers(store.reservations + [Reservation(book, number, 1)])
    ensures Reserved(store.(reservations := store.reservations + [Reservation(book, number, 1)]), book, number)
  {
    var after := store.reservations + [Reservation(book, number, 1)];
    assert forall i | 0 <= i < |store.reservations| :: after[i] == store.reservations[i] && !Holds(after[i], book, number);
    assert Holds(after[|store.reservations|], book, number);
  }

  /** Once the suggested number is reserved, the next suggestion of that book is a larger one, and other books' stay. */
  lemma ReservingMovesSuggestion(store: Store, book: int, start: int, number: int, other: int, otherStart: int, next: int)
    requires Suggestion(store, book, start, number)
    requires Suggestion(store.(reservations := store.reservations + [Reservation(book, number, 1)]), other, otherStart, next)
    ensures other == book && otherStart == start ==> next > number
    ensures other != book ==> Suggestion(store, other, otherStart, next)
  {
    var after := store.(reservations := store.reservations + [Reservation(book, number, 1)]);
    forall b, n ensures Taken(after, b, n) <==> Taken(store, b, n) || (b == book && n == number) {
      TakenAfterReserving(store, book, number, b, n);
    }
  }

  lemma TakenAfterReserving(store: Store, book: int, number: int, b: int, n: int)
    ensures Taken(store.(reservations := store.reservations + [Reservation(book, number, 1)]), b, n) <==>
              Taken(store, b, n) || (b == book && n == number)
  {
    var after := store.(reservations := store.reservations + [Reservation(book, number, 1)]);
    assert forall i | 0 <= i < |store.reservations| :: after.reservations[i] == store.reservations[i];
    assert after.reservations[|store.reservations|] == Reservation(book, number, 1);
    if Reserved(store, b, n) {
      var i :| 0 <= i < |store.reservations| && Holds(store.reservations[i], b, n);
      assert Holds(after.reservations[i], b, n);
    }
  }
}
