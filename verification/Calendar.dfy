/**
 The proleptic Gregorian calendar on day numbers (day 0 is 1 January 1970) of ECMA-262, section 21.4.1,
 with the Date operations the birthday service uses. Months count from 0 and week days from Sunday, 0.
 */
module Calendar {

  predicate Leap(y: int) {
    y % 4 == 0 && (y % 100 != 0 || y % 400 == 0)
  }

  function DaysInYear(y: int): int {
    if Leap(y) then 366 else 365
  }

  /** Number of the first day of a year. */
  function DayFromYear(y: int): int {
    365 * (y - 1970) + (y - 1969) / 4 - (y - 1901) / 100 + (y - 1601) / 400
  }

  lemma NextYear(y: int)
    ensures DayFromYear(y + 1) == DayFromYear(y) + DaysInYear(y)
  {
    FourthYears(y);
    HundredthYears(y);
    FourHundredthYears(y);
    MultiplesOfHundred(y);
  }

  lemma MultiplesOfHundred(y: int)
    ensures y % 100 == 0 ==> y % 4 == 0
    ensures y % 400 == 0 ==> y % 100 == 0
  {
  }

  lemma FourthYears(y: int)
    ensures (y + 1 - 1969) / 4 - (y - 1969) / 4 == if y % 4 == 0 then 1 else 0
  {
  }

  lemma HundredthYears(y: int)
    ensures (y + 1 - 1901) / 100 - (y - 1901) / 100 == if y % 100 == 0 then 1 else 0
  {
  }

  lemma FourHundredthYears(y: int)
    ensures (y + 1 - 1601) / 400 - (y - 1601) / 400 == if y % 400 == 0 then 1 else 0
  {
  }

  lemma {:induction false} YearsApart(a: int, b: int)
    requires a < b
    ensures DayFromYear(b) >= DayFromYear(a) + DaysInYear(a)
    decreases b - a
  {
    NextYear(b - 1);
    if a < b - 1 {
      YearsApart(a, b - 1);
    }
  }

  /** Walks from a guess to the year that holds the day. */
  function YearFrom(day: int, guess: int): (y: int)
    ensures DayFromYear(y) <= day < DayFromYear(y + 1)
    decreases if DayFromYear(guess) > day then 1 else 0, if DayFromYear(guess) > day then DayFromYear(guess) - day else day - DayFromYear(guess)
  {
    NextYear(guess - 1);
    NextYear(guess);
    if DayFromYear(guess) > day then YearFrom(day, guess - 1)
    else if DayFromYear(guess + 1) <= day then YearFrom(day, guess + 1)
    else guess
  }

  function Year(day: int): int {
    YearFrom(day, 1970)
  }

  lemma YearIs(day: int, y: int)
    ensures Year(day) == y <==> DayFromYear(y) <= day < DayFromYear(y + 1)
  {
  }

  /** Days of a year before its month m, for 0 <= m <= 12. */
  function MonthStart(m: int, leap: bool): int {
    var extra := if leap then 1 else 0;
    if m <= 0 then 0 else if m == 1 then 31
    else if m == 2 then 59 + extra else if m == 3 then 90 + extra else if m == 4 then 120 + extra
    else if m == 5 then 151 + extra else if m == 6 then 181 + extra else if m == 7 then 212 + extra
    else if m == 8 then 243 + extra else if m == 9 then 273 + extra else if m == 10 then 304 + extra
    else if m == 11 then 334 + extra else 365 + extra
  }

  function MonthOf(dayInYear: int, leap: bool): (m: int)
    requires 0 <= dayInYear < if leap then 366 else 365
    ensures 0 <= m < 12 && MonthStart(m, leap) <= dayInYear < MonthStart(m + 1, leap)
  {
    var extra := if leap then 1 else 0;
    if dayInYear < 31 then 0
    else if dayInYear < 59 + extra then 1 else if dayInYear < 90 + extra then 2 else if dayInYear < 120 + extra then 3
    else if dayInYear < 151 + extra then 4 else if dayInYear < 181 + extra then 5 else if dayInYear < 212 + extra then 6
    else if dayInYear < 243 + extra then 7 else if dayInYear < 273 + extra then 8 else if dayInYear < 304 + extra then 9
    else if dayInYear < 334 + extra then 10 else 11
  }

  function DayInYear(day: int): (n: int)
    ensures 0 <= n < DaysInYear(Year(day))
  {
    NextYear(Year(day));
    day - DayFromYear(Year(day))
  }

  function Month(day: int): int {
    MonthOf(DayInYear(day), Leap(Year(day)))
  }

  /** Day of the month, from 1. */
  function Date(day: int): int {
    DayInYear(day) - MonthStart(Month(day), Leap(Year(day))) + 1
  }

  function WeekDay(day: int): int {
    (day + 4) % 7
  }

  function MonthLength(y: int, m: int): int {
    MonthStart(m + 1, Leap(y)) - MonthStart(m, Leap(y))
  }

  /** The day with these fields; a month outside 0..11 moves the year, and any date counts from the month's start. */
  function MakeDay(y: int, m: int, date: int): int {
    var ym := y + m / 12;
    DayFromYear(ym) + MonthStart(m % 12, Leap(ym)) + date - 1
  }

  lemma MakeDayInYear(y: int, m: int, date: int)
    requires 0 <= m < 12
    ensures MakeDay(y, m, date) == DayFromYear(y) + MonthStart(m, Leap(y)) + date - 1
  {
  }

  lemma FieldsAddUp(day: int, y: int, m: int, date: int)
    requires y == Year(day) && m == Month(day) && date == Date(day)
    ensures 0 <= m < 12 && 1 <= date <= MonthLength(y, m)
    ensures day == DayFromYear(y) + MonthStart(m, Leap(y)) + date - 1
  {
  }

  /** Building a day from its own fields gives it back. */
  lemma MakeDayOfFields(day: int)
    ensures MakeDay(Year(day), Month(day), Date(day)) == day
    ensures 0 <= Month(day) < 12 && 1 <= Date(day) <= MonthLength(Year(day), Month(day))
  {
    FieldsAddUp(day, Year(day), Month(day), Date(day));
    MakeDayInYear(Year(day), Month(day), Date(day));
  }

  /** A day built from fields in range has these fields. */
  lemma FieldsOfMakeDay(y: int, m: int, date: int)
    requires 0 <= m < 12 && 1 <= date <= MonthLength(y, m)
    ensures var day := MakeDay(y, m, date); Year(day) == y && Month(day) == m && Date(day) == date
  {
    MakeDayInYear(y, m, date);
    InYear(m, date, Leap(y));
    FieldsInYear(MakeDay(y, m, date), y, MonthStart(m, Leap(y)) + date - 1);
  }

  lemma FieldsInYear(day: int, y: int, n: int)
    requires day == DayFromYear(y) + n && 0 <= n < DaysInYear(y)
    ensures Year(day) == y && Month(day) == MonthOf(n, Leap(y)) && Date(day) == n - MonthStart(MonthOf(n, Leap(y)), Leap(y)) + 1
  {
    NextYear(y);
    YearIs(day, y);
  }

  lemma InYear(m: int, date: int, leap: bool)
    requires 0 <= m < 12 && 1 <= date <= MonthStart(m + 1, leap) - MonthStart(m, leap)
    ensures 0 <= MonthStart(m, leap) + date - 1 < if leap then 366 else 365
    ensures MonthOf(MonthStart(m, leap) + date - 1, leap) == m
  {
  }

  // ---------- Date operations ----------

  /** The constructor with a year, month and date: years 0 to 99 mean 1900 to 1999. */
  function NewDate(y: int, m: int, date: int): int {
    MakeDay(if 0 <= y <= 99 then 1900 + y else y, m, date)
  }

  function SetDate(day: int, date: int): int {
    MakeDay(Year(day), Month(day), date)
  }

  /** Setting the date moves by the difference to the present date, across months and years. */
  lemma SetDateMoves(day: int, date: int)
    ensures SetDate(day, date) == day + date - Date(day)
  {
  }

  predicate SameMonthAndDate(a: int, b: int) {
    Month(a) == Month(b) && Date(a) == Date(b)
  }

  /** Two days with the same month and date are a year or more apart. */
  lemma SameDateApart(a: int, b: int)
    ensures a < b && SameMonthAndDate(a, b) ==> b - a >= 365
  {
    MakeDayOfFields(a);
    MakeDayOfFields(b);
    if SameMonthAndDate(a, b) {
      FieldsApart(a, b, Year(a), Year(b), Month(a), Date(a));
    }
  }

  lemma FieldsApart(a: int, b: int, ya: int, yb: int, m: int, date: int)
    requires 0 <= m < 12 && a == MakeDay(ya, m, date) && b == MakeDay(yb, m, date)
    ensures a < b ==> b - a >= 365
  {
    YearsApartSameDate(ya, yb, m, date);
    YearsApartSameDate(yb, ya, m, date);
  }

  lemma YearsApartSameDate(ya: int, yb: int, m: int, date: int)
    requires 0 <= m < 12
    ensures ya < yb ==> MakeDay(yb, m, date) - MakeDay(ya, m, date) >= 365
  {
    if ya < yb {
      YearsApart(ya, yb);
      assert m / 12 == 0 && m % 12 == m;
      MonthStarts(m, Leap(ya), Leap(yb));
    }
  }

  /** A month starts at most one day earlier in a common year than in a leap year. */
  lemma MonthStarts(m: int, a: bool, b: bool)
    ensures MonthStart(m, b) >= MonthStart(m, a) - if a then 1 else 0
  {
  }

  /** Day 0 is Thursday, 1 January 1970, and week days follow one another. */
  lemma StartOfTheCount(day: int)
    ensures Year(0) == 1970 && Month(0) == 0 && Date(0) == 1 && WeekDay(0) == 4
    ensures WeekDay(day + 1) == if WeekDay(day) == 6 then 0 else WeekDay(day) + 1
  {
    FirstYear();
    WeekDaysFollow(day + 4);
  }

  lemma FirstYear()
    ensures Year(0) == 1970
  {
    assert DayFromYear(1970) == 0;
    NextYear(1970);
    YearIs(0, 1970);
  }

  lemma WeekDaysFollow(day: int)
    ensures (day + 1) % 7 == if day % 7 == 6 then 0 else day % 7 + 1
  {
  }

  /** The lengths of the months, and when the leap day falls. */
  lemma MonthLengths(y: int)
    ensures seq(12, m => MonthLength(y, m)) ==
            [31, if y % 4 == 0 && (y % 100 != 0 || y % 400 == 0) then 29 else 28, 31, 30, 31, 30, 31, 31, 30, 31, 30, 31]
  {
  }
}
