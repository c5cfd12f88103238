/** The proleptic Gregorian calendar in UTC, on days counted from the Unix epoch. */
module Calendar {
  import opened Common

  const SECOND := 1_000_000_000
  const DAY := 86_400_000_000_000

  datatype Date = Date(year: int, month: int, day: int)

  predicate IsLeap(y: int) {
    y % 4 == 0 && (y % 100 != 0 || y % 400 == 0)
  }

  // Days from 1970-01-01 to January 1st of year y.
  function YearStart(y: int): int {
    365 * y + (y + 3) / 4 - (y + 99) / 100 + (y + 399) / 400 - 719528
  }

  // Rounding up one step later adds one exactly at multiples.
  lemma RoundUp(y: int, n: int, q: int, r: int)
    requires n > 1 && y == n * q + r && 0 <= r < n
    ensures (y + n) / n == q + 1 && (y + n - 1) / n == q + if r == 0 then 0 else 1
  {
    Quotient(y + n, n, q + 1, r);
    if r == 0 {
      Quotient(y + n - 1, n, q, n - 1);
    } else {
      Quotient(y + n - 1, n, q + 1, r - 1);
    }
  }

  lemma Quotient(y: int, n: int, q: int, r: int)
    requires n > 0 && y == n * q + r && 0 <= r < n
    ensures y / n == q && y % n == r
  {
    var d := y / n - q;
    assert n * d == r - y % n;
    Multiples(n, d);
  }

  lemma Multiples(n: int, d: int)
    requires n > 0
    ensures d > 0 ==> n * d >= n
    ensures d < 0 ==> n * d <= -n
  {
    if d > 0 {
      assert n * (d - 1) >= 0;
    } else if d < 0 {
      assert n * (-d - 1) >= 0;
    }
  }

  lemma Steps(y: int, n: int)
    requires n > 1
    ensures (y + n) / n == (y + n - 1) / n + if y % n == 0 then 1 else 0
  {
    RoundUp(y, n, y / n, y % n);
  }

  lemma LeapMultiples(y: int)
    ensures (y % 100 == 0 ==> y % 4 == 0) && (y % 400 == 0 ==> y % 100 == 0)
  {
    if y % 100 == 0 {
      Quotient(y, 4, 25 * (y / 100), 0);
    }
    if y % 400 == 0 {
      Quotient(y, 100, 4 * (y / 400), 0);
    }
  }

  lemma YearLength(y: int)
    ensures YearStart(y + 1) == YearStart(y) + if IsLeap(y) then 366 else 365
  {
    Steps(y, 4);
    Steps(y, 100);
    Steps(y, 400);
    LeapMultiples(y);
  }

  // Days of the year before month m; m == 13 gives the length of the year.
  function DaysBefore(m: int, leap: bool): int
    requires 1 <= m <= 13
  {
    [0, 31, 59, 90, 120, 151, 181, 212, 243, 273, 304, 334, 365][m - 1] + if leap && m > 2 then 1 else 0
  }

  function DaysIn(y: int, m: int): int
    requires 1 <= m <= 12
  {
    DaysBefore(m + 1, IsLeap(y)) - DaysBefore(m, IsLeap(y))
  }

  predicate ValidDate(d: Date) {
    1 <= d.month <= 12 && 1 <= d.day <= DaysIn(d.year, d.month)
  }

  function DayNumber(d: Date): int
    requires 1 <= d.month <= 12
  {
    YearStart(d.year) + DaysBefore(d.month, IsLeap(d.year)) + d.day - 1
  }

  // The year that contains day n: the mean year length is 146097/400 days.
  function YearOf(n: int): (y: int)
    ensures YearStart(y) <= n < YearStart(y + 1)
  {
    var guess := (n + 719528) * 400 / 146097;
    if n < YearStart(guess) then guess - 1 else if n >= YearStart(guess + 1) then guess + 1 else guess
  }

  function MonthOf(k: int, leap: bool): (m: int)
    requires 0 <= k < DaysBefore(13, leap)
    ensures 1 <= m <= 12 && DaysBefore(m, leap) <= k < DaysBefore(m + 1, leap)
  {
    if k < DaysBefore(7, leap) then
      if k < DaysBefore(4, leap) then
        if k < DaysBefore(2, leap) then 1 else if k < DaysBefore(3, leap) then 2 else 3
      else if k < DaysBefore(5, leap) then 4 else if k < DaysBefore(6, leap) then 5 else 6
    else if k < DaysBefore(10, leap) then
      if k < DaysBefore(8, leap) then 7 else if k < DaysBefore(9, leap) then 8 else 9
    else if k < DaysBefore(11, leap) then 10 else if k < DaysBefore(12, leap) then 11 else 12
  }

  function CivilOf(n: int): (d: Date)
    ensures ValidDate(d) && DayNumber(d) == n
  {
    var y := YearOf(n);
    YearLength(y);
    var k := n - YearStart(y);
    var m := MonthOf(k, IsLeap(y));
    Date(y, m, k - DaysBefore(m, IsLeap(y)) + 1)
  }

  lemma {:induction false} YearsInOrder(y: int, z: int)
    requires y < z
    ensures YearStart(y + 1) <= YearStart(z)
    decreases z - y
  {
    if y + 1 < z {
      YearsInOrder(y + 1, z);
      YearLength(y + 1);
    }
  }

  lemma InsideYear(d: Date)
    requires ValidDate(d)
    ensures YearStart(d.year) <= DayNumber(d) < YearStart(d.year + 1)
  {
    YearLength(d.year);
  }

  lemma {:induction false} MonthsInOrder(m: int, n: int, leap: bool)
    requires 1 <= m < n <= 12
    ensures DaysBefore(m + 1, leap) <= DaysBefore(n, leap)
    decreases n - m
  {
  }

  // Different dates have different day numbers.
  lemma SameDayNumber(d: Date, e: Date)
    requires ValidDate(d) && ValidDate(e) && DayNumber(d) == DayNumber(e)
    ensures d == e
  {
    SameYear(d, e);
    SameYearDate(d, e);
  }

  lemma SameYear(d: Date, e: Date)
    requires ValidDate(d) && ValidDate(e) && DayNumber(d) == DayNumber(e)
    ensures d.year == e.year
  {
    InsideYear(d);
    InsideYear(e);
    if d.year < e.year {
      YearsInOrder(d.year, e.year);
    } else if e.year < d.year {
      YearsInOrder(e.year, d.year);
    }
  }

  /** Every calendar date has its own day number, and CivilOf finds the date again. */
  lemma CivilRoundTrip(d: Date)
    requires ValidDate(d)
    ensures CivilOf(DayNumber(d)) == d
  {
    SameDayNumber(d, CivilOf(DayNumber(d)));
  }

  lemma SameYearDate(d: Date, e: Date)
    requires ValidDate(d) && ValidDate(e) && d.year == e.year && DayNumber(d) == DayNumber(e)
    ensures d == e
  {
    if d.month < e.month {
      MonthsInOrder(d.month, e.month, IsLeap(d.year));
    } else if e.month < d.month {
      MonthsInOrder(e.month, d.month, IsLeap(d.year));
    }
  }

  // 0 is Sunday; day 0, 1970-01-01, was a Thursday.
  function Weekday(n: int): int {
    (n + 4) % 7
  }

  function DayOf(t: int): int {
    t / DAY
  }

  // ----- this is the Gregorian calendar -----

  /** Every month has the length the Gregorian rule gives it. */
  lemma MonthLength(y: int, m: int)
    requires 1 <= m <= 12
    ensures DaysIn(y, m) == if m == 2 then (if (y % 4 == 0 && y % 100 != 0) || y % 400 == 0 then 29 else 28)
                            else if m == 4 || m == 6 || m == 9 || m == 11 then 30 else 31
  {
  }

  // The date after a date.
  function DayAfter(d: Date): Date
    requires ValidDate(d)
  {
    if d.day < DaysIn(d.year, d.month) then Date(d.year, d.month, d.day + 1)
    else if d.month < 12 then Date(d.year, d.month + 1, 1)
    else Date(d.year + 1, 1, 1)
  }

  lemma DayAfterCounts(d: Date)
    requires ValidDate(d)
    ensures ValidDate(DayAfter(d)) && DayNumber(DayAfter(d)) == DayNumber(d) + 1
  {
    YearLength(d.year);
    MonthLength(d.year, d.month);
    MonthLength(DayAfter(d).year, DayAfter(d).month);
  }

  lemma FindDate(n: int, d: Date)
    requires ValidDate(d) && DayNumber(d) == n
    ensures CivilOf(n) == d
  {
    SameDayNumber(d, CivilOf(n));
  }

  /** The first of January 1970 is day 0, a Thursday. */
  lemma Epoch()
    ensures DayNumber(Date(1970, 1, 1)) == 0 && Weekday(0) == 4
  {
    assert YearStart(1970) == 0;
  }

  /** Every day is followed by the next date of its month, or the first of the next month, or New
      Year's Day, on the next day of the week. */
  lemma DaysFollow(n: int)
    ensures CivilOf(n + 1) == DayAfter(CivilOf(n))
    ensures Weekday(n + 1) == if Weekday(n) == 6 then 0 else Weekday(n) + 1
  {
    var d := CivilOf(n);
    DayAfterCounts(d);
    FindDate(n + 1, DayAfter(d));
    NextWeekday(n);
  }

  lemma NextWeekday(n: int)
    ensures Weekday(n + 1) == if Weekday(n) == 6 then 0 else Weekday(n) + 1
  {
  }
}
