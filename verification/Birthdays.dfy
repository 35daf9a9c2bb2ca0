/**
 Birthdays of a week or month: the range, the month-day pairs the database filters by, and the list
 (backend_nest/src/announcements/birthday.service.ts). Dates are day numbers of local midnight.
 */
module Birthdays {
  import opened Prelude
  import opened Calendar
  import opened StableSort

  datatype View = WeekView | MonthView

  datatype Pair = Pair(month: int, day: int)

  // ---------- the range ----------

  /** The year a month view shows: years 0 to 99 are taken for 1900 to 1999. */
  function ViewYear(base: int): int {
    if 0 <= Year(base) <= 99 then 1900 + Year(base) else Year(base)
  }

  /** What the range of a view is to be. */
  ghost predicate IsRange(base: int, view: View, start: int, end: int) {
    match view
    case WeekView => start == base - (WeekDay(base) + 6) % 7 && end == start + 6
    case MonthView => start == MakeDay(ViewYear(base), Month(base), 1) && end == MakeDay(ViewYear(base), Month(base) + 1, 0)
  }

  /** Setting a date to its value plus an offset moves by that many days. */
  method MoveDate(day: int, offset: int) returns (moved: int)
    ensures moved == day + offset
  {
    SetDateMoves(day, Date(day) + offset);
    moved := SetDate(day, Date(day) + offset);
  }

  method MonthRange(base: int) returns (start: int, end: int)
    ensures IsRange(base, MonthView, start, end)
  {
    start := NewDate(Year(base), Month(base), 1);
    end := NewDate(Year(base), Month(base) + 1, 0);
  }

  method GetRange(base: int, view: View) returns (start: int, end: int)
    ensures IsRange(base, view, start, end)
  {
    if view == MonthView {
      start, end := MonthRange(base);
    } else {
      var distanceToMonday := (WeekDay(base) + 6) % 7;
      start := MoveDate(base, -distanceToMonday);
      end := MoveDate(start, 6);
    }
  }

  /** The week view is the one run of seven days from a Monday to a Sunday that contains the base date. */
  lemma WeekIsMondayToSunday(base: int, start: int, end: int)
    ensures IsRange(base, WeekView, start, end) <==>
              start <= base <= end && WeekDay(start) == 1 && WeekDay(end) == 0 && end == start + 6
  {
  }

  /** First and last day of a month. */
  lemma MonthBounds(y: int, m: int)
    requires 0 <= m < 12
    ensures MakeDay(y, m + 1, 0) == MakeDay(y, m, 1) + MonthLength(y, m) - 1
    ensures MonthLength(y, m) in {28, 29, 30, 31}
  {
    if m == 11 {
      NextYear(y);
      assert 12 / 12 == 1 && 12 % 12 == 0 && 11 / 12 == 0 && 11 % 12 == 11;
    } else {
      assert m / 12 == 0 && m % 12 == m && (m + 1) / 12 == 0 && (m + 1) % 12 == m + 1;
    }
  }

  /** A day lies within a month's bounds exactly when its fields say so. */
  lemma InMonth(day: int, y: int, m: int)
    requires 0 <= m < 12
    ensures MakeDay(y, m, 1) <= day <= MakeDay(y, m + 1, 0) <==> Year(day) == y && Month(day) == m
  {
    MonthBounds(y, m);
    if MakeDay(y, m, 1) <= day <= MakeDay(y, m + 1, 0) {
      DayWithin(day, y, m, day - MakeDay(y, m, 1) + 1);
    }
    if Year(day) == y && Month(day) == m {
      FieldsWithin(day, Date(day));
    }
  }

  lemma DayWithin(day: int, y: int, m: int, date: int)
    requires 0 <= m < 12 && 1 <= date <= MonthLength(y, m) && day == MakeDay(y, m, 1) + date - 1
    ensures Year(day) == y && Month(day) == m
  {
    DateShifts(y, m, date);
    FieldsOfMakeDay(y, m, date);
  }

  lemma FieldsWithin(day: int, date: int)
    requires date == Date(day)
    ensures day == MakeDay(Year(day), Month(day), 1) + date - 1 && 1 <= date <= MonthLength(Year(day), Month(day))
  {
  }

  lemma DateShifts(y: int, m: int, date: int)
    ensures MakeDay(y, m, date) == MakeDay(y, m, 1) + date - 1
  {
  }

  /** The days from start to end are those of month m of year y. */
  ghost predicate IsMonth(start: int, end: int, y: int, m: int) {
    28 <= end - start + 1 <= 31 && forall day :: start <= day <= end <==> Month(day) == m && Year(day) == y
  }

  /**
   The month view holds exactly the days of the base date's month in the view's year, so it contains the
   base date exactly when its year is not one of 0 to 99.
   */
  lemma MonthContainsBaseExactlyWhen(base: int, start: int, end: int)
    requires IsRange(base, MonthView, start, end)
    ensures start <= base <= end <==> !(0 <= Year(base) <= 99)
    ensures IsMonth(start, end, ViewYear(base), Month(base))
  {
    MakeDayOfFields(base);
    DaysOfMonth(ViewYear(base), Month(base), start, end);
    InMonth(base, ViewYear(base), Month(base));
  }

  lemma DaysOfMonth(y: int, m: int, start: int, end: int)
    requires 0 <= m < 12 && start == MakeDay(y, m, 1) && end == MakeDay(y, m + 1, 0)
    ensures IsMonth(start, end, y, m)
  {
    MonthBounds(y, m);
    forall day ensures start <= day <= end <==> Month(day) == m && Year(day) == y {
      InMonth(day, y, m);
    }
  }

  /** Either view spans less than a year. */
  lemma RangesAreShort(base: int, view: View, start: int, end: int)
    requires IsRange(base, view, start, end)
    ensures 6 <= end - start < 31
  {
    if view == MonthView {
      MonthContainsBaseExactlyWhen(base, start, end);
    }
  }

  // ---------- the pairs and the search ----------

  function PairOf(day: int): Pair {
    Pair(Month(day) + 1, Date(day))
  }

  function PairsFrom(start: int, end: int): seq<Pair> {
    if end < start then [] else seq(end - start + 1, i => PairOf(start + i))
  }

  lemma PairsGrow(start: int, end: int)
    requires start <= end
    ensures PairsFrom(start, end) == PairsFrom(start, end - 1) + [PairOf(end)]
  {
  }

  method EnumerateMonthDayPairs(start: int, end: int) returns (pairs: seq<Pair>)
    ensures pairs == PairsFrom(start, end)
    ensures |pairs| == if start <= end then end - start + 1 else 0
    ensures forall i | 0 <= i < |pairs| :: pairs[i].month == Month(start + i) + 1 && pairs[i].day == Date(start + i)
  {
    pairs := [];
    var cursor := start;
    while cursor <= end
      invariant start <= cursor && (cursor <= end + 1 || cursor == start)
      invariant pairs == PairsFrom(start, cursor - 1)
      decreases end - cursor
    {
      PairsGrow(start, cursor);
      pairs := pairs + [PairOf(cursor)];
      cursor := MoveDate(cursor, 1);
    }
    PairsAre(start, end, pairs);
  }

  lemma PairsAre(start: int, end: int, pairs: seq<Pair>)
    requires pairs == PairsFrom(start, end)
    ensures |pairs| == if start <= end then end - start + 1 else 0
    ensures forall i | 0 <= i < |pairs| :: pairs[i].month == Month(start + i) + 1 && pairs[i].day == Date(start + i)
  {
    if start <= end {
      PairAt(start, end, 0);
      forall i | 0 <= i < |pairs| ensures pairs[i] == PairOf(start + i) {
        PairAt(start, end, i);
      }
      FieldsOfPairs(start, pairs);
    }
  }

  lemma FieldsOfPairs(start: int, pairs: seq<Pair>)
    requires forall i | 0 <= i < |pairs| :: pairs[i] == PairOf(start + i)
    ensures forall i | 0 <= i < |pairs| :: pairs[i].month == Month(start + i) + 1 && pairs[i].day == Date(start + i)
  {
  }

  method BirthdayInRangeDate(birthday: int, start: int, end: int) returns (found: Option<int>)
    ensures found.Some? ==> start <= found.value <= end && SameMonthAndDate(found.value, birthday)
                            && forall d | start <= d < found.value :: !SameMonthAndDate(d, birthday)
    ensures found.None? ==> forall d | start <= d <= end :: !SameMonthAndDate(d, birthday)
  {
    var month, day := Month(birthday), Date(birthday);
    var cursor := start;
    while cursor <= end
      invariant start <= cursor && forall d | start <= d < cursor :: !SameMonthAndDate(d, birthday)
      decreases end - cursor
    {
      if Month(cursor) == month && Date(cursor) == day {
        return Some(cursor);
      }
      cursor := MoveDate(cursor, 1);
    }
    found := None;
  }

  /** The database's filter: the birthday's month and day are one of the pairs. */
  predicate Matches(pairs: seq<Pair>, birthday: int) {
    PairOf(birthday) in pairs
  }

  /** The pairs of a view are distinct. */
  lemma PairsAreDistinct(base: int, view: View, start: int, end: int)
    requires IsRange(base, view, start, end)
    ensures var pairs := PairsFrom(start, end);
            |pairs| == end - start + 1 && forall i, j | 0 <= i < j < |pairs| :: pairs[i] != pairs[j]
  {
    RangesAreShort(base, view, start, end);
    DistinctWithin(start, end, PairsFrom(start, end));
  }

  lemma DistinctWithin(start: int, end: int, pairs: seq<Pair>)
    requires start <= end < start + 365 && pairs == PairsFrom(start, end)
    ensures |pairs| == end - start + 1 && forall i, j | 0 <= i < j < |pairs| :: pairs[i] != pairs[j]
  {
    PairAt(start, end, 0);
    forall i, j | 0 <= i < j < |pairs| ensures pairs[i] != pairs[j] {
      PairsDifferAt(start, end, i, j);
    }
  }

  lemma PairsDifferAt(start: int, end: int, i: int, j: int)
    requires end < start + 365 && 0 <= i < j <= end - start
    ensures j < |PairsFrom(start, end)| && PairsFrom(start, end)[i] != PairsFrom(start, end)[j]
  {
    PairAt(start, end, i);
    PairAt(start, end, j);
    PairsDiffer(start + i, start + j);
  }

  lemma PairAt(start: int, end: int, i: int)
    requires 0 <= i <= end - start
    ensures |PairsFrom(start, end)| == end - start + 1 && PairsFrom(start, end)[i] == PairOf(start + i)
  {
  }

  lemma PairsDiffer(a: int, b: int)
    requires a < b < a + 365
    ensures PairOf(a) != PairOf(b)
  {
    if PairOf(a) == PairOf(b) {
      SameDateApart(a, b);
    }
  }

  /** The day of a range on which a birthday falls. */
  ghost predicate FallsOn(birthday: int, start: int, end: int, day: int) {
    start <= day <= end && SameMonthAndDate(day, birthday)
  }

  /** A birthday passes the filter exactly when it falls on some day of the range. */
  lemma MatchesExactlyWhenFound(birthday: int, start: int, end: int)
    ensures Matches(PairsFrom(start, end), birthday) <==> exists day :: FallsOn(birthday, start, end, day)
  {
    var pairs := PairsFrom(start, end);
    if Matches(pairs, birthday) {
      var i :| 0 <= i < |pairs| && pairs[i] == PairOf(birthday);
      assert PairOf(start + i) == pairs[i];
      assert FallsOn(birthday, start, end, start + i);
    }
    if day :| FallsOn(birthday, start, end, day) {
      assert pairs[day - start] == PairOf(day) == PairOf(birthday);
    }
  }

  /** In a view a birthday falls on one day at most. */
  lemma FallsOnOneDay(base: int, view: View, start: int, end: int, birthday: int, a: int, b: int)
    requires IsRange(base, view, start, end)
    ensures FallsOn(birthday, start, end, a) && FallsOn(birthday, start, end, b) ==> a == b
  {
    RangesAreShort(base, view, start, end);
    SameDateApart(a, b);
    SameDateApart(b, a);
  }

  /** Someone born on 29 February is in a month view exactly when it shows February of a leap year. */
  lemma LeapDayBirthday(base: int, start: int, end: int, birthday: int)
    requires IsRange(base, MonthView, start, end)
    ensures Month(birthday) == 1 && Date(birthday) == 29 ==>
              (Matches(PairsFrom(start, end), birthday) <==> Month(base) == 1 && Leap(ViewYear(base)))
  {
    MonthContainsBaseExactlyWhen(base, start, end);
    MatchesExactlyWhenFound(birthday, start, end);
    LeapDayIn(ViewYear(base), Month(base), start, end, birthday);
  }

  /** A month has a 29 February exactly when it is February of a leap year. */
  lemma LeapDayIn(y: int, m: int, start: int, end: int, birthday: int)
    requires IsMonth(start, end, y, m)
    ensures Month(birthday) == 1 && Date(birthday) == 29 ==>
              ((exists day :: FallsOn(birthday, start, end, day)) <==> m == 1 && Leap(y))
  {
    if Month(birthday) == 1 && Date(birthday) == 29 {
      if day :| FallsOn(birthday, start, end, day) {
        TwentyNinth(day);
      }
      if m == 1 && Leap(y) {
        TwentyNinthExists(y);
        assert FallsOn(birthday, start, end, MakeDay(y, 1, 29));
      }
    }
  }

  lemma TwentyNinth(day: int)
    ensures Month(day) == 1 && Date(day) == 29 ==> Leap(Year(day))
  {
    MakeDayOfFields(day);
  }

  lemma TwentyNinthExists(y: int)
    requires Leap(y)
    ensures var day := MakeDay(y, 1, 29); Year(day) == y && Month(day) == 1 && Date(day) == 29
  {
    FieldsOfMakeDay(y, 1, 29);
  }

  // ---------- the list ----------

  datatype User = User(id: string, status: int, birthday: Option<int>)

  datatype Item = Item(user: User, date: int, wished: bool)

  /** The rows the database returns. */
  function Filtered(users: seq<User>, pairs: seq<Pair>): seq<User> {
    if users == [] then []
    else
      var n := |users| - 1;
      var u := users[n];
      Filtered(users[..n], pairs) + if u.status == 1 && u.birthday.Some? && Matches(pairs, u.birthday.value) then [u] else []
  }

  function ByDate(): Item -> real {
    (item: Item) => item.date as real
  }

  /** One item for each row, in order, with the day its birthday falls on. */
  ghost predicate Mapped(rows: seq<User>, wished: set<string>, start: int, end: int, items: seq<Item>) {
    |items| == |rows| && forall i | 0 <= i < |rows| :: MappedTo(rows[i], wished, start, end, items[i])
  }

  ghost predicate MappedTo(row: User, wished: set<string>, start: int, end: int, item: Item) {
    row.birthday.Some? && item == Item(row, item.date, row.id in wished)
    && FallsOn(row.birthday.value, start, end, item.date)
  }

  /** The user's birthday falls on some day of the range. */
  ghost predicate Celebrates(u: User, start: int, end: int) {
    u.birthday.Some? && exists day :: FallsOn(u.birthday.value, start, end, day)
  }

  lemma {:induction false} FilteredCelebrate(users: seq<User>, start: int, end: int, i: nat)
    requires i < |Filtered(users, PairsFrom(start, end))|
    ensures Filtered(users, PairsFrom(start, end))[i].status == 1 && Celebrates(Filtered(users, PairsFrom(start, end))[i], start, end)
  {
    var n := |users| - 1;
    var front := Filtered(users[..n], PairsFrom(start, end));
    if i < |front| {
      FilteredCelebrate(users[..n], start, end, i);
    } else {
      MatchesExactlyWhenFound(users[n].birthday.value, start, end);
    }
  }

  /** Nobody with a day in the range is dropped for want of one. */
  method MapRows(rows: seq<User>, wished: set<string>, start: int, end: int) returns (items: seq<Item>)
    requires forall i | 0 <= i < |rows| :: Celebrates(rows[i], start, end)
    ensures Mapped(rows, wished, start, end, items)
  {
    items := [];
    var i := 0;
    while i < |rows|
      invariant 0 <= i <= |rows| && |items| == i
      invariant forall j | 0 <= j < i :: MappedTo(rows[j], wished, start, end, items[j])
    {
      assert Celebrates(rows[i], start, end);
      var upcoming := BirthdayInRangeDate(rows[i].birthday.value, start, end);
      if upcoming.Some? {
        items := items + [Item(rows[i], upcoming.value, rows[i].id in wished)];
      }
      i := i + 1;
    }
  }

  /**
   Everyone the filter lets through is listed: the later filter on missing dates drops nobody. The list
   is the one stable sort by the day in the range.
   */
  method List(users: seq<User>, wished: set<string>, base: int, view: View)
      returns (items: seq<Item>, start: int, end: int, ghost unsorted: seq<Item>)
    ensures IsRange(base, view, start, end)
    ensures Mapped(Filtered(users, PairsFrom(start, end)), wished, start, end, unsorted)
    ensures items == Sort(unsorted, ByDate())
  {
    start, end := GetRange(base, view);
    var pairs := EnumerateMonthDayPairs(start, end);
    var rows := Filtered(users, pairs);
    forall i | 0 <= i < |rows| ensures Celebrates(rows[i], start, end) {
      FilteredCelebrate(users, start, end, i);
    }
    items := MapRows(rows, wished, start, end);
    unsorted := items;
    items := Sort(items, ByDate());
  }

  /** A user is listed exactly when active with a birthday on a day of the range. */
  lemma ListedExactlyWhen(users: seq<User>, wished: set<string>, start: int, end: int, unsorted: seq<Item>, u: User)
    requires Mapped(Filtered(users, PairsFrom(start, end)), wished, start, end, unsorted)
    ensures var items := Sort(unsorted, ByDate());
            && |items| == |Filtered(users, PairsFrom(start, end))| && Sorted(items, ByDate())
            && (forall i, j | 0 <= i < j < |items| :: items[i].date <= items[j].date)
            && (Lists(items, u) <==> u in users && u.status == 1 && Celebrates(u, start, end))
            && (Celebrates(u, start, end) <==>
                u.birthday.Some? && exists day :: start <= day <= end && Month(day) == Month(u.birthday.value) && Date(day) == Date(u.birthday.value))
  {
    var rows := Filtered(users, PairsFrom(start, end));
    SortLists(unsorted, u);
    EarliestFirst(Sort(unsorted, ByDate()));
    CelebratesExactly(u, start, end);
    FilteredHolds(users, start, end, u);
    MappedLists(rows, wished, start, end, unsorted, u);
  }

  lemma EarliestFirst(items: seq<Item>)
    requires Sorted(items, ByDate())
    ensures forall i, j | 0 <= i < j < |items| :: items[i].date <= items[j].date
  {
    forall i, j | 0 <= i < j < |items| ensures items[i].date <= items[j].date {
      assert ByDate()(items[i]) <= ByDate()(items[j]);
    }
  }

  lemma CelebratesExactly(u: User, start: int, end: int)
    ensures Celebrates(u, start, end) <==>
              u.birthday.Some? && exists day :: start <= day <= end && Month(day) == Month(u.birthday.value) && Date(day) == Date(u.birthday.value)
  {
    if u.birthday.Some? {
      forall day | start <= day <= end && Month(day) == Month(u.birthday.value) && Date(day) == Date(u.birthday.value)
        ensures FallsOn(u.birthday.value, start, end, day)
      {
      }
    }
  }

  ghost predicate Lists(items: seq<Item>, u: User) {
    exists i :: 0 <= i < |items| && items[i].user == u
  }

  lemma SortLists(unsorted: seq<Item>, u: User)
    ensures var items := Sort(unsorted, ByDate());
            |items| == |unsorted| && Sorted(items, ByDate()) && (Lists(items, u) <==> Lists(unsorted, u))
  {
    var items := Sort(unsorted, ByDate());
    SortProperties(unsorted, ByDate());
    assert |items| == |multiset(items)| == |multiset(unsorted)|;
    if i :| 0 <= i < |items| && items[i].user == u {
      assert items[i] in multiset(unsorted);
    }
    if i :| 0 <= i < |unsorted| && unsorted[i].user == u {
      assert unsorted[i] in multiset(items);
    }
  }

  lemma MappedLists(rows: seq<User>, wished: set<string>, start: int, end: int, items: seq<Item>, u: User)
    requires Mapped(rows, wished, start, end, items)
    ensures Lists(items, u) <==> u in rows
  {
  }

  lemma {:induction false} FilteredHolds(users: seq<User>, start: int, end: int, u: User)
    ensures u in Filtered(users, PairsFrom(start, end)) <==> u in users && u.status == 1 && Celebrates(u, start, end)
  {
    if users != [] {
      var n := |users| - 1;
      FilteredHolds(users[..n], start, end, u);
      assert users == users[..n] + [users[n]];
      if users[n].birthday.Some? {
        MatchesExactlyWhenFound(users[n].birthday.value, start, end);
      }
    }
  }
}
