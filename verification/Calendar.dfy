// The calendar of the desktop (gui.c): the weekday of a date by Zeller's congruence, and the
// lengths of the months.
module Calendar {
  const MONTH_DAYS: seq<int> := [31, 28, 31, 30, 31, 30, 31, 31, 30, 31, 30, 31]

  predicate IsLeap(y: int) { (y % 4 == 0 && y % 100 != 0) || y % 400 == 0 }

  // cal_mdays
  function MonthDays(m: int, y: int): (n: int)
    requires 1 <= m <= 12
    ensures 28 <= n <= 31
  {
    if m == 2 && IsLeap(y) then 29 else MONTH_DAYS[m - 1]
  }

  // cal_weekday: 0 is Sunday.  From year 1 on no dividend is negative.
  function Weekday(d: int, m: int, y: int): (w: int)
    requires d >= 1 && 1 <= m <= 12 && y >= 1
    ensures 0 <= w < 7
  {
    var m' := if m < 3 then m + 12 else m;
    var y' := if m < 3 then y - 1 else y;
    var K := y' % 100;
    var J := y' / 100;
    var h := (d + (13 * (m' + 1)) / 5 + K + K / 4 + J / 4 + 5 * J) % 7;
    (h + 6) % 7
  }

  // ----- the calendar itself -----

  predicate IsDate(d: int, m: int, y: int) {
    y >= 1 && 1 <= m <= 12 && 1 <= d <= MonthDays(m, y)
  }

  function NextDay(d: int, m: int, y: int): (n: (int, int, int))
    requires IsDate(d, m, y)
    ensures IsDate(n.0, n.1, n.2)
  {
    if d < MonthDays(m, y) then (d + 1, m, y)
    else if m < 12 then (1, m + 1, y)
    else (1, 1, y + 1)
  }

  // The days before the first of January of year y, counted from year 1.
  function DaysBeforeYear(y: int): nat
    requires y >= 1
    decreases y
  {
    if y == 1 then 0 else DaysBeforeYear(y - 1) + if IsLeap(y - 1) then 366 else 365
  }

  function DaysBeforeMonth(m: int, y: int): nat
    requires 1 <= m <= 12
    decreases m
  {
    if m == 1 then 0 else DaysBeforeMonth(m - 1, y) + MonthDays(m - 1, y)
  }

  // The number of a date: 1 January of year 1 has number 1.
  function DayNumber(d: int, m: int, y: int): nat
    requires IsDate(d, m, y)
  {
    DaysBeforeYear(y) + DaysBeforeMonth(m, y) + d
  }

  // The next day has the next number.
  lemma NextDayNumber(d: int, m: int, y: int)
    requires IsDate(d, m, y)
    ensures var n := NextDay(d, m, y);
      DayNumber(n.0, n.1, n.2) == DayNumber(d, m, y) + 1
  {
    if d == MonthDays(m, y) && m == 12 {
      YearLength(y);
    }
  }

  lemma YearLength(y: int)
    ensures DaysBeforeMonth(12, y) + 31 == if IsLeap(y) then 366 else 365
  {
    assert DaysBeforeMonth(4, y) == 31 + MonthDays(2, y) + 31;
    assert DaysBeforeMonth(6, y) == DaysBeforeMonth(4, y) + 61;
    assert DaysBeforeMonth(8, y) == DaysBeforeMonth(6, y) + 61;
    assert DaysBeforeMonth(10, y) == DaysBeforeMonth(8, y) + 61;
    assert DaysBeforeMonth(12, y) == DaysBeforeMonth(10, y) + 61;
  }

  // ----- the part of the congruence that depends on the year -----

  function YearTerm(y: int): int
    requires y >= 0
  {
    y % 100 + (y % 100) / 4 + (y / 100) / 4 + 5 * (y / 100)
  }

  // It counts a day for each year and for each leap year, modulo 7.
  lemma YearTermCounts(y: int)
    requires y >= 0
    ensures YearTerm(y) == y + y / 4 - y / 100 + y / 400 - 7 * (17 * (y / 100))
  {
    var J, K := y / 100, y % 100;
    assert y == 100 * J + K;
    assert y / 4 == 25 * J + K / 4;
    assert y / 400 == J / 4;
  }

  lemma LeapYears(y: int)
    requires y >= 1
    ensures (y / 4 - y / 100 + y / 400) - ((y - 1) / 4 - (y - 1) / 100 + (y - 1) / 400) == if IsLeap(y) then 1 else 0
  {
    Quotients(y, 4);
    Quotients(y, 100);
    Quotients(y, 400);
    assert y % 400 == 0 ==> y % 100 == 0;
    assert y % 100 == 0 ==> y % 4 == 0;
  }

  lemma Quotients(y: int, k: int)
    requires y >= 1 && (k == 4 || k == 100 || k == 400)
    ensures y / k - (y - 1) / k == if y % k == 0 then 1 else 0
  {
  }

  // ----- arithmetic modulo 7 -----

  // Numbers that differ by a multiple of 7.
  lemma Congruent(a: int, b: int, k: int)
    requires a == b + 7 * k
    ensures a % 7 == b % 7
  {
  }

  lemma AddAfterwards(a: int, n: int)
    ensures (a % 7 + n) % 7 == (a + n) % 7
  {
    Congruent(a + n, a % 7 + n, a / 7);
  }

  // ----- the weekday follows the calendar -----

  function MonthTerm(m: int): int { (13 * (m + 1)) / 5 }

  // The sum whose remainder modulo 7 is the weekday.
  function Zeller(d: int, m: int, y: int): int
    requires y >= 1
  {
    d + 6 + if m < 3 then MonthTerm(m + 12) + YearTerm(y - 1) else MonthTerm(m) + YearTerm(y)
  }

  lemma WeekdayIsZeller(d: int, m: int, y: int)
    requires d >= 1 && 1 <= m <= 12 && y >= 1
    ensures Weekday(d, m, y) == Zeller(d, m, y) % 7
  {
    AddAfterwards(Zeller(d, m, y) - 6, 6);
  }

  // The first of the next month: the days of the month later, up to whole weeks.
  lemma NextMonthTerm(m: int, y: int)
    requires 1 <= m < 12 && y >= 1
    ensures Zeller(1, m + 1, y) % 7 == (Zeller(1, m, y) + MonthDays(m, y)) % 7
  {
    if m == 2 {
      YearStep(y);
      Congruent(Zeller(1, 2, y) + MonthDays(2, y), Zeller(1, 3, y), 8 + 17 * (y / 100 - (y - 1) / 100));
    } else {
      MonthSteps(m);
      Congruent(Zeller(1, m, y) + MonthDays(m, y), Zeller(1, m + 1, y), 4);
    }
  }

  // From one year to the next: a day, and another in a leap year, up to whole weeks.
  lemma YearStep(y: int)
    requires y >= 1
    ensures YearTerm(y) - YearTerm(y - 1)
         == 1 + (if IsLeap(y) then 1 else 0) - 7 * (17 * (y / 100 - (y - 1) / 100))
  {
    YearTermCounts(y);
    YearTermCounts(y - 1);
    LeapYears(y);
  }

  // Apart from February the month term grows by the days of the month over four weeks.
  lemma MonthSteps(m: int)
    requires 1 <= m < 12 && m != 2
    ensures MonthTerm(if m < 3 then m + 13 else m + 1) == MonthTerm(if m < 3 then m + 12 else m) + MONTH_DAYS[m - 1] - 28
  {
  }

  lemma NextMonth(m: int, y: int)
    requires 1 <= m < 12 && y >= 1
    ensures Weekday(1, m + 1, y) == (Weekday(1, m, y) + MonthDays(m, y)) % 7
  {
    WeekdayIsZeller(1, m + 1, y);
    WeekdayIsZeller(1, m, y);
    NextMonthTerm(m, y);
    AddAfterwards(Zeller(1, m, y), MonthDays(m, y));
  }

  lemma NextYear(y: int)
    requires y >= 1
    ensures Weekday(1, 1, y + 1) == (Weekday(1, 12, y) + 31) % 7
  {
    WeekdayIsZeller(1, 1, y + 1);
    WeekdayIsZeller(1, 12, y);
    AddAfterwards(Zeller(1, 12, y), 31);
    Congruent(Zeller(1, 12, y) + 31, Zeller(1, 1, y + 1), 4);
  }

  lemma WithinMonth(d: int, m: int, y: int)
    requires d >= 1 && 1 <= m <= 12 && y >= 1
    ensures Weekday(d, m, y) == (Weekday(1, m, y) + d - 1) % 7
  {
    WeekdayIsZeller(d, m, y);
    WeekdayIsZeller(1, m, y);
    AddAfterwards(Zeller(1, m, y), d - 1);
  }

  // One day on, one weekday on: across the ends of months and years, in leap years and others.
  lemma NextWeekday(d: int, m: int, y: int)
    requires IsDate(d, m, y)
    ensures var n := NextDay(d, m, y);
      Weekday(n.0, n.1, n.2) == (Weekday(d, m, y) + 1) % 7
  {
    var first := Weekday(1, m, y);
    WithinMonth(d, m, y);
    AddAfterwards(first + d - 1, 1);
    if d < MonthDays(m, y) {
      WithinMonth(d + 1, m, y);
    } else if m < 12 {
      NextMonth(m, y);
    } else {
      NextYear(y);
    }
  }

  lemma {:induction false} FirstOfMonth(m: int, y: int)
    requires 1 <= m <= 12 && y >= 1
    ensures Weekday(1, m, y) == (Weekday(1, 1, y) + DaysBeforeMonth(m, y)) % 7
    decreases m
  {
    if m > 1 {
      FirstOfMonth(m - 1, y);
      NextMonth(m - 1, y);
      var first, before, days := Weekday(1, 1, y), DaysBeforeMonth(m - 1, y), MonthDays(m - 1, y);
      AddAfterwards(first + before, days);
    }
  }

  lemma {:induction false} FirstOfYear(y: int)
    requires y >= 1
    ensures Weekday(1, 1, y) == (1 + DaysBeforeYear(y)) % 7
    decreases y
  {
    if y > 1 {
      FirstOfYear(y - 1);
      YearOn(y - 1);
    }
  }

  lemma YearOn(y: int)
    requires y >= 1 && Weekday(1, 1, y) == (1 + DaysBeforeYear(y)) % 7
    ensures Weekday(1, 1, y + 1) == (1 + DaysBeforeYear(y + 1)) % 7
  {
    FirstOfMonth(12, y);
    NextYear(y);
    InTurn(1 + DaysBeforeYear(y), DaysBeforeMonth(12, y), 31, Weekday(1, 1, y), Weekday(1, 12, y));
    YearAdds(y);
  }

  lemma YearAdds(y: int)
    requires y >= 1
    ensures DaysBeforeYear(y + 1) == DaysBeforeYear(y) + DaysBeforeMonth(12, y) + 31
  {
    YearLength(y);
  }

  // Two numbers of days added in turn.
  lemma InTurn(a: int, b: int, c: int, u: int, v: int)
    requires u == a % 7 && v == (u + b) % 7
    ensures (v + c) % 7 == (a + b + c) % 7
  {
    AddAfterwards(a, b);
    AddAfterwards(a + b, c);
  }

  // Zeller's congruence counts days: the weekday is the number of the date modulo 7.
  lemma WeekdayCountsDays(d: int, m: int, y: int)
    requires IsDate(d, m, y)
    ensures Weekday(d, m, y) == DayNumber(d, m, y) % 7
  {
    FirstOfYear(y);
    FirstOfMonth(m, y);
    WithinMonth(d, m, y);
    InTurn(1 + DaysBeforeYear(y), DaysBeforeMonth(m, y), d - 1, Weekday(1, 1, y), Weekday(1, m, y));
  }

  // The calendar repeats every 400 years.
  lemma Repeats(d: int, m: int, y: int)
    requires IsDate(d, m, y)
    ensures IsDate(d, m, y + 400) && Weekday(d, m, y + 400) == Weekday(d, m, y)
  {
    LeapYearsRepeat(y);
    YearTermRepeats(if m < 3 then y - 1 else y);
    WeekdayIsZeller(d, m, y);
    WeekdayIsZeller(d, m, y + 400);
    Congruent(Zeller(d, m, y + 400), Zeller(d, m, y), 3);
  }

  lemma LeapYearsRepeat(y: int)
    ensures IsLeap(y + 400) == IsLeap(y)
  {
    Again(y, 4, 100);
    Again(y, 100, 4);
    Again(y, 400, 1);
  }

  lemma Again(y: int, n: int, k: int)
    requires n > 0 && n * k == 400
    ensures (y + 400) % n == y % n
  {
    var q, r := y / n, y % n;
    assert y + 400 == n * (q + k) + r;
    Quotient(n, q + k, r);
  }

  lemma Quotient(n: int, q: int, r: int)
    requires 0 <= r < n
    ensures (n * q + r) % n == r
  {
    var d := (n * q + r) / n - q;
    assert n * d == r - (n * q + r) % n;
  }

  lemma YearTermRepeats(y: int)
    requires y >= 0
    ensures YearTerm(y + 400) == YearTerm(y) + 7 * 3
  {
    assert (y + 400) / 100 == y / 100 + 4 && (y + 400) % 100 == y % 100;
  }

  // 1 January 2000 was a Saturday; 2000 was a leap year and 1900 was none.
  lemma KnownDays()
    ensures Weekday(1, 1, 2000) == 6 && MonthDays(2, 2000) == 29 && MonthDays(2, 1900) == 28
    ensures NextDay(28, 2, 1900) == (1, 3, 1900) && NextDay(31, 12, 1999) == (1, 1, 2000)
  {
  }
}
