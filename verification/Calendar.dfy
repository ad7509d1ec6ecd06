/** The proleptic Gregorian calendar and ISO weeks of ISO 8601, as Go's time package computes them in UTC. Day 0 is
    1 January of year 1, a Monday. */
module Calendar {

  predicate IsLeap(y: int) {
    y % 4 == 0 && (y % 100 != 0 || y % 400 == 0)
  }

  function YearLength(y: int): int {
    if IsLeap(y) then 366 else 365
  }

  /** The first day of a year. */
  function DaysBeforeYear(y: int): int
    decreases if y > 1 then y - 1 else 1 - y
  {
    if y == 1 then 0
    else if y > 1 then DaysBeforeYear(y - 1) + YearLength(y - 1)
    else DaysBeforeYear(y + 1) - YearLength(y)
  }

  /** The closed form of the 400-year cycle. */
  lemma {:induction false} CycleForm(y: int)
    ensures DaysBeforeYear(y) == 365 * (y - 1) + (y - 1) / 4 - (y - 1) / 100 + (y - 1) / 400
    decreases if y > 1 then y - 1 else 1 - y
  {
    if y > 1 {
      CycleForm(y - 1);
      LeapCount(y - 1);
    } else if y < 1 {
      CycleForm(y + 1);
      LeapCount(y);
    }
  }

  lemma LeapCount(y: int)
    ensures y / 4 - y / 100 + y / 400 == (y - 1) / 4 - (y - 1) / 100 + (y - 1) / 400 + if IsLeap(y) then 1 else 0
  {
    Hundredths(y);
  }

  lemma Hundredths(y: int)
    ensures y / 100 == (y - 1) / 100 + if y % 100 == 0 then 1 else 0
    ensures y % 100 == 0 ==> y % 4 == 0
  {}

  lemma {:induction false} YearsGrow(y: int, z: int)
    requires y <= z
    ensures DaysBeforeYear(y) + 365 * (z - y) <= DaysBeforeYear(z)
    decreases z - y
  {
    if y < z {
      YearsGrow(y, z - 1);
    }
  }

  function YearFrom(n: int, y: int): int
    requires DaysBeforeYear(y) <= n
    decreases n - DaysBeforeYear(y)
  {
    if n < DaysBeforeYear(y + 1) then y else YearFrom(n, y + 1)
  }

  function YearUpTo(n: int, y: int): int
    requires n < DaysBeforeYear(y + 1)
    decreases DaysBeforeYear(y + 1) - n
  {
    if DaysBeforeYear(y) <= n then y else YearUpTo(n, y - 1)
  }

  function YearOf(n: int): int {
    if n >= DaysBeforeYear(1) then YearFrom(n, 1) else YearUpTo(n, 0)
  }

  lemma {:induction false} YearFromHolds(n: int, y: int)
    requires DaysBeforeYear(y) <= n
    ensures DaysBeforeYear(YearFrom(n, y)) <= n < DaysBeforeYear(YearFrom(n, y) + 1)
    decreases n - DaysBeforeYear(y)
  {
    if n >= DaysBeforeYear(y + 1) {
      YearFromHolds(n, y + 1);
    }
  }

  lemma {:induction false} YearUpToHolds(n: int, y: int)
    requires n < DaysBeforeYear(y + 1)
    ensures DaysBeforeYear(YearUpTo(n, y)) <= n < DaysBeforeYear(YearUpTo(n, y) + 1)
    decreases DaysBeforeYear(y + 1) - n
  {
    if n < DaysBeforeYear(y) {
      YearUpToHolds(n, y - 1);
    }
  }

  lemma YearHoldsDay(n: int)
    ensures DaysBeforeYear(YearOf(n)) <= n < DaysBeforeYear(YearOf(n) + 1)
  {
    if n >= DaysBeforeYear(1) { YearFromHolds(n, 1); } else { YearUpToHolds(n, 0); }
  }

  lemma YearIsUnique(n: int, y: int)
    requires DaysBeforeYear(y) <= n < DaysBeforeYear(y + 1)
    ensures YearOf(n) == y
  {
    YearHoldsDay(n);
    if y < YearOf(n) { YearsGrow(y + 1, YearOf(n)); }
    if YearOf(n) < y { YearsGrow(YearOf(n) + 1, y); }
  }

  // ----- Months and dates -----

  function MonthLength(y: int, m: int): (n: int)
    requires 1 <= m <= 12
    ensures 28 <= n <= 31
  {
    if m == 2 then if IsLeap(y) then 29 else 28
    else if m == 4 || m == 6 || m == 9 || m == 11 then 30
    else 31
  }

  function DaysBeforeMonth(y: int, m: int): (n: int)
    requires 1 <= m <= 13
    ensures n >= 28 * (m - 1)
  {
    if m == 1 then 0 else DaysBeforeMonth(y, m - 1) + MonthLength(y, m - 1)
  }

  lemma TwelveMonths(y: int)
    ensures DaysBeforeMonth(y, 13) == YearLength(y)
  {
    assert DaysBeforeMonth(y, 2) == 31;
    assert DaysBeforeMonth(y, 3) == 31 + MonthLength(y, 2);
    assert DaysBeforeMonth(y, 4) == DaysBeforeMonth(y, 3) + 31;
    assert DaysBeforeMonth(y, 5) == DaysBeforeMonth(y, 4) + 30;
    assert DaysBeforeMonth(y, 6) == DaysBeforeMonth(y, 5) + 31;
    assert DaysBeforeMonth(y, 7) == DaysBeforeMonth(y, 6) + 30;
    assert DaysBeforeMonth(y, 8) == DaysBeforeMonth(y, 7) + 31;
    assert DaysBeforeMonth(y, 9) == DaysBeforeMonth(y, 8) + 31;
    assert DaysBeforeMonth(y, 10) == DaysBeforeMonth(y, 9) + 30;
    assert DaysBeforeMonth(y, 11) == DaysBeforeMonth(y, 10) + 31;
    assert DaysBeforeMonth(y, 12) == DaysBeforeMonth(y, 11) + 30;
    assert DaysBeforeMonth(y, 13) == DaysBeforeMonth(y, 12) + 31;
  }

  function SearchMonth(y: int, yday: int, m: int): (month: int)
    requires 1 <= m <= 12 && DaysBeforeMonth(y, m) <= yday < DaysBeforeMonth(y, 13)
    ensures 1 <= month <= 12
    decreases 12 - m
  {
    if yday < DaysBeforeMonth(y, m + 1) then m else SearchMonth(y, yday, m + 1)
  }

  lemma {:induction false} MonthHolds(y: int, yday: int, m: int)
    requires 1 <= m <= 12 && DaysBeforeMonth(y, m) <= yday < DaysBeforeMonth(y, 13)
    ensures var k := SearchMonth(y, yday, m); DaysBeforeMonth(y, k) <= yday < DaysBeforeMonth(y, k + 1)
    decreases 12 - m
  {
    if yday >= DaysBeforeMonth(y, m + 1) {
      MonthHolds(y, yday, m + 1);
    }
  }

  datatype Date = Date(year: int, month: int, day: int)

  predicate ValidDate(d: Date) {
    1 <= d.month <= 12 && 1 <= d.day <= MonthLength(d.year, d.month)
  }

  function DayOf(d: Date): int
    requires 1 <= d.month <= 12
  {
    DaysBeforeYear(d.year) + DaysBeforeMonth(d.year, d.month) + d.day - 1
  }

  function DateIn(y: int, yday: int): (d: Date)
    requires 0 <= yday < DaysBeforeMonth(y, 13)
    ensures 1 <= d.month <= 12
  {
    var m := SearchMonth(y, yday, 1);
    Date(y, m, yday - DaysBeforeMonth(y, m) + 1)
  }

  lemma DateInHolds(y: int, yday: int)
    requires 0 <= yday < DaysBeforeMonth(y, 13)
    ensures ValidDate(DateIn(y, yday)) && DayOf(DateIn(y, yday)) == DaysBeforeYear(y) + yday
  {
    MonthHolds(y, yday, 1);
  }

  lemma InYear(n: int)
    ensures 0 <= n - DaysBeforeYear(YearOf(n)) < DaysBeforeMonth(YearOf(n), 13)
  {
    YearHoldsDay(n);
    TwelveMonths(YearOf(n));
  }

  /** The civil date of a day. */
  function DateOf(n: int): (d: Date)
    ensures 1 <= d.month <= 12
  {
    InYear(n);
    DateIn(YearOf(n), n - DaysBeforeYear(YearOf(n)))
  }

  lemma DayOfItsDate(n: int)
    ensures ValidDate(DateOf(n)) && DayOf(DateOf(n)) == n
  {
    InYear(n);
    DayOfDateIn(n, YearOf(n), n - DaysBeforeYear(YearOf(n)), DateOf(n));
  }

  lemma DayOfDateIn(n: int, y: int, yday: int, d: Date)
    requires 0 <= yday < DaysBeforeMonth(y, 13) && n == DaysBeforeYear(y) + yday && d == DateIn(y, yday)
    ensures ValidDate(d) && DayOf(d) == n
  {
    DateInHolds(y, yday);
  }

  lemma {:induction false} MonthsGrow(y: int, m: int, k: int)
    requires 1 <= m <= k <= 13
    ensures DaysBeforeMonth(y, m) <= DaysBeforeMonth(y, k)
    decreases k - m
  {
    if m < k {
      MonthsGrow(y, m, k - 1);
    }
  }

  lemma DateIsInItsYear(d: Date)
    requires ValidDate(d)
    ensures DaysBeforeYear(d.year) <= DayOf(d) < DaysBeforeYear(d.year + 1)
  {
    TwelveMonths(d.year);
    MonthsGrow(d.year, d.month + 1, 13);
  }

  lemma MonthIsUnique(y: int, yday: int, m: int, k: int)
    requires 1 <= m <= 12 && 1 <= k <= 12
    requires DaysBeforeMonth(y, m) <= yday < DaysBeforeMonth(y, m + 1)
    requires DaysBeforeMonth(y, k) <= yday < DaysBeforeMonth(y, k + 1)
    ensures m == k
  {
    if m < k { MonthsGrow(y, m + 1, k); }
    if k < m { MonthsGrow(y, k + 1, m); }
  }

  lemma DateIsUnique(d: Date, e: Date)
    requires ValidDate(d) && ValidDate(e) && DayOf(d) == DayOf(e)
    ensures d == e
  {
    DateIsInItsYear(d);
    DateIsInItsYear(e);
    YearIsUnique(DayOf(d), d.year);
    YearIsUnique(DayOf(d), e.year);
    MonthIsUnique(d.year, DayOf(d) - DaysBeforeYear(d.year), d.month, e.month);
  }

  /** Valid dates and days are in bijection. */
  lemma DateRoundTrip(d: Date)
    requires ValidDate(d)
    ensures DateOf(DayOf(d)) == d
  {
    DayOfItsDate(DayOf(d));
    DateIsUnique(DateOf(DayOf(d)), d);
  }

  // ----- Months in a row -----

  function MonthIndex(n: int): int {
    12 * DateOf(n).year + DateOf(n).month - 1
  }

  function FirstOfMonth(i: int): int {
    DayOf(Date(i / 12, i % 12 + 1, 1))
  }

  function LengthOfMonth(i: int): int {
    MonthLength(i / 12, i % 12 + 1)
  }

  lemma MonthStep(i: int)
    ensures FirstOfMonth(i + 1) == FirstOfMonth(i) + LengthOfMonth(i)
  {
    if i % 12 == 11 {
      TwelveMonths(i / 12);
      assert (i + 1) / 12 == i / 12 + 1 && (i + 1) % 12 == 0;
    } else {
      assert (i + 1) / 12 == i / 12 && (i + 1) % 12 == i % 12 + 1;
    }
  }

  lemma {:induction false} MonthsAdvance(i: int, j: int)
    requires i <= j
    ensures FirstOfMonth(i) <= FirstOfMonth(j)
    decreases j - i
  {
    if i < j {
      MonthsAdvance(i, j - 1);
      MonthStep(j - 1);
    }
  }

  lemma MonthHoldsDay(n: int)
    ensures FirstOfMonth(MonthIndex(n)) <= n < FirstOfMonth(MonthIndex(n) + 1)
  {
    var d := DateOf(n);
    var k := MonthIndex(n);
    DayOfItsDate(n);
    IndexParts(d.year, d.month);
    MonthStep(k);
  }

  lemma IndexParts(y: int, m: int)
    requires 1 <= m <= 12
    ensures (12 * y + m - 1) / 12 == y && (12 * y + m - 1) % 12 + 1 == m
  {}

  lemma OneMonthHolds(n: int, i: int, k: int)
    requires FirstOfMonth(k) <= n < FirstOfMonth(k + 1)
    ensures i == k <==> FirstOfMonth(i) <= n < FirstOfMonth(i + 1)
  {
    if i < k {
      MonthsAdvance(i + 1, k);
    } else if k < i {
      MonthsAdvance(k + 1, i);
    }
  }

  lemma MonthIndexExactly(n: int, i: int)
    ensures MonthIndex(n) == i <==> FirstOfMonth(i) <= n < FirstOfMonth(i + 1)
  {
    MonthHoldsDay(n);
    OneMonthHolds(n, i, MonthIndex(n));
  }

  /** time.AddDate(0, k, 0): the day of the month is kept and overflows into the next month. */
  function AddMonths(n: int, k: int): int {
    FirstOfMonth(MonthIndex(n) + k) + DateOf(n).day - 1
  }

  lemma TwelveBack(y: int, m: int)
    requires 1 <= m <= 12
    ensures (12 * y + m - 1 - 12) / 12 == y - 1 && (12 * y + m - 1 - 12) % 12 + 1 == m
  {}

  /** The date d.day - 1 days after the first of d's month, for a day the month may lack. */
  lemma DayInMonth(y: int, m: int, day: int)
    requires 1 <= m <= 12 && 1 <= day <= MonthLength(y, m)
    ensures DateOf(DayOf(Date(y, m, 1)) + day - 1) == Date(y, m, day)
  {
    DateRoundTrip(Date(y, m, day));
  }

  lemma LeapDayBack(y: int)
    requires IsLeap(y)
    ensures DateOf(DayOf(Date(y - 1, 2, 1)) + 28) == Date(y - 1, 3, 1)
  {
    assert !IsLeap(y - 1);
    assert DaysBeforeMonth(y - 1, 3) == DaysBeforeMonth(y - 1, 2) + 28;
    DateRoundTrip(Date(y - 1, 3, 1));
  }

  function YearEarlierDate(d: Date): Date {
    if d.month == 2 && d.day == 29 then Date(d.year - 1, 3, 1) else Date(d.year - 1, d.month, d.day)
  }

  lemma DateEarlier(d: Date)
    requires ValidDate(d)
    ensures DateOf(DayOf(Date(d.year - 1, d.month, 1)) + d.day - 1) == YearEarlierDate(d)
  {
    if d.month == 2 && d.day == 29 {
      LeapDayBack(d.year);
    } else {
      DayInMonth(d.year - 1, d.month, d.day);
    }
  }

  lemma FirstEarlier(n: int, y: int, m: int)
    requires 1 <= m <= 12 && MonthIndex(n) == 12 * y + m - 1
    ensures AddMonths(n, -12) == DayOf(Date(y - 1, m, 1)) + DateOf(n).day - 1
  {
    TwelveBack(y, m);
  }

  /** Twelve months back is the same day a year earlier, except that 29 February becomes 1 March. */
  lemma YearEarlier(n: int)
    ensures DateOf(AddMonths(n, -12)) == YearEarlierDate(DateOf(n))
  {
    DayOfItsDate(n);
    FirstEarlier(n, DateOf(n).year, DateOf(n).month);
    DateEarlier(DateOf(n));
  }

  // ----- ISO weeks -----

  /** The Monday of a day's week. */
  function MondayOf(n: int): int {
    n - n % 7
  }

  /** Weekday in Go's numbering: Sunday is 0. */
  function Weekday(n: int): int {
    (n + 1) % 7
  }

  /** time.ISOWeek: the year of the week's Thursday and the ordinal of that Thursday in it. */
  function IsoWeek(n: int): (int, int) {
    var thursday := MondayOf(n) + 3;
    var year := YearOf(thursday);
    (year, (thursday - DaysBeforeYear(year)) / 7 + 1)
  }

  /** The Monday week 1 starts on: week 1 is the week of 4 January. */
  function FirstMonday(y: int): int {
    MondayOf(DaysBeforeYear(y) + 3)
  }

  lemma YearOfExactly(n: int, y: int)
    ensures YearOf(n) == y <==> DaysBeforeYear(y) <= n < DaysBeforeYear(y + 1)
  {
    YearHoldsDay(n);
    if DaysBeforeYear(y) <= n < DaysBeforeYear(y + 1) {
      YearIsUnique(n, y);
    }
  }

  /** The Thursday rule agrees with the definition by 4 January: the weeks of year y are exactly those from its
      first Monday up to the next year's ... */
  lemma IsoYearExactly(n: int, y: int)
    ensures IsoWeek(n).0 == y <==> FirstMonday(y) <= n < FirstMonday(y + 1)
  {
    YearOfExactly(MondayOf(n) + 3, y);
  }

  /** ... numbered from 1. */
  lemma IsoWeekNumber(n: int)
    ensures IsoWeek(n).1 == (n - FirstMonday(IsoWeek(n).0)) / 7 + 1
  {}

  /** A year has 52 weeks, and a 53rd exactly when it starts on a Thursday or is a leap year starting on a
      Wednesday. */
  lemma LongYearsExactly(y: int)
    ensures var jan1 := DaysBeforeYear(y);
      FirstMonday(y + 1) - FirstMonday(y)
      == if Weekday(jan1) == 4 || (Weekday(jan1) == 3 && IsLeap(y)) then 7 * 53 else 7 * 52
  {
    WeekFromThursday(DaysBeforeYear(y), YearLength(y));
  }

  lemma WeekFromThursday(b: int, length: int)
    requires 365 <= length <= 366
    ensures MondayOf(b + length + 3) - MondayOf(b + 3)
         == if Weekday(b) == 4 || (Weekday(b) == 3 && length == 366) then 7 * 53 else 7 * 52
  {
    var q, r := b / 7, b % 7;
    assert b == 7 * q + r;
    assert MondayOf(b + 3) == 7 * q + if r <= 3 then 0 else 7;
  }
}
