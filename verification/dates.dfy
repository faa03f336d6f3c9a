/**
  Calendar arithmetic for the picker.

  The widget only ever handles dates floored to local midnight, so a host
  Date object is modelled by its calendar date: a year, a 0-based month (as
  `getMonth` returns it) and a 1-based day of the month (`getDate`).  A date
  is `Valid` when its month and day exist in the proleptic Gregorian calendar,
  the calendar of the host's Date objects.  The host's time value of such a
  date is its `DayNumber` (days since 1970-01-01) times one day; comparing
  Date objects with `<` compares time values, which `LessIsEarlier` shows to be
  the field-by-field order `Less` used throughout the model.
*/
module Dates {

  /** A calendar date at local midnight. */
  datatype Date = Date(year: int, month: int, day: int)

  /** A date that exists: what a host Date object other than NaN holds once floored to a day. */
  type ValidDate = d: Date | Valid(d) witness Date(1970, 0, 1)

  predicate IsLeap(y: int) {
    y % 4 == 0 && (y % 100 != 0 || y % 400 == 0)
  }

  function YearLength(y: int): int {
    if IsLeap(y) then 366 else 365
  }

  /** Number of days in 0-based month `m` of year `y`. */
  function MonthLength(y: int, m: int): (r: int)
    requires 0 <= m < 12
    ensures 28 <= r <= 31
  {
    if m == 1 then (if IsLeap(y) then 29 else 28)
    else if m == 3 || m == 5 || m == 8 || m == 10 then 30
    else 31
  }

  /** A date that exists in the calendar. */
  predicate Valid(d: Date) {
    0 <= d.month < 12 && 1 <= d.day <= MonthLength(d.year, d.month)
  }

  /** Days of year `y` that lie before 0-based month `m` (`m == 12` gives the whole year). */
  function DaysBeforeMonth(y: int, m: int): int
    requires 0 <= m <= 12
  {
    var leap := if IsLeap(y) then 1 else 0;
    if m == 0 then 0
    else if m == 1 then 31
    else if m == 2 then 59 + leap
    else if m == 3 then 90 + leap
    else if m == 4 then 120 + leap
    else if m == 5 then 151 + leap
    else if m == 6 then 181 + leap
    else if m == 7 then 212 + leap
    else if m == 8 then 243 + leap
    else if m == 9 then 273 + leap
    else if m == 10 then 304 + leap
    else if m == 11 then 334 + leap
    else 365 + leap
  }

  /** Each month starts where the previous one ends, and the twelve months make up the year. */
  lemma MonthStep(y: int, m: int)
    requires 0 <= m < 12
    ensures DaysBeforeMonth(y, m + 1) == DaysBeforeMonth(y, m) + MonthLength(y, m)
    ensures DaysBeforeMonth(y, 0) == 0 && DaysBeforeMonth(y, 12) == YearLength(y)
  {
  }

  lemma {:induction false} DaysBeforeMonthMonotone(y: int, a: int, b: int)
    requires 0 <= a <= b <= 12
    ensures DaysBeforeMonth(y, a) + 28 * (b - a) <= DaysBeforeMonth(y, b)
    decreases b - a
  {
    if a < b {
      DaysBeforeMonthMonotone(y, a, b - 1);
      MonthStep(y, b - 1);
    }
  }

  /** Day number of January 1st of year `y`, counted from 1970. */
  function YearStart(y: int): int
    decreases if y >= 1970 then y - 1970 else 1970 - y
  {
    if y > 1970 then YearStart(y - 1) + YearLength(y - 1)
    else if y < 1970 then YearStart(y + 1) - YearLength(y)
    else 0
  }

  lemma YearStartStep(y: int)
    ensures YearStart(y + 1) == YearStart(y) + YearLength(y)
  {
  }

  /** Later years start later, by at least a whole year. */
  lemma {:induction false} YearStartMonotone(a: int, b: int)
    requires a < b
    ensures YearStart(a) + YearLength(a) <= YearStart(b)
    decreases b - a
  {
    YearStartStep(a);
    if a + 1 < b {
      YearStartMonotone(a + 1, b);
    }
  }

  /** A year starts at least 365 and at most 366 days per year away from 1970. */
  lemma {:induction false} YearStartBound(y: int)
    ensures y >= 1970 ==> 365 * (y - 1970) <= YearStart(y) <= 366 * (y - 1970)
    ensures y < 1970 ==> 366 * (y - 1970) <= YearStart(y) <= 365 * (y - 1970)
    decreases if y >= 1970 then y - 1970 else 1970 - y
  {
    if y > 1970 {
      YearStartBound(y - 1);
    } else if y < 1970 {
      YearStartBound(y + 1);
    }
  }

  /** days_from_civil: the number of days from 1970-01-01 to `d`. */
  function DayNumber(d: Date): int
    requires Valid(d)
  {
    YearStart(d.year) + DaysBeforeMonth(d.year, d.month) + d.day - 1
  }

  /** 1970-01-01, day number 0. */
  const Epoch := Date(1970, 0, 1)

  /** Chronological order of dates, compared field by field. */
  predicate Less(a: Date, b: Date) {
    a.year < b.year
    || (a.year == b.year && (a.month < b.month || (a.month == b.month && a.day < b.day)))
  }

  predicate LessEq(a: Date, b: Date) {
    a == b || Less(a, b)
  }

  /** A date lies within its year: after the year's start and before the next. */
  lemma DayNumberInYear(d: Date)
    requires Valid(d)
    ensures YearStart(d.year) <= DayNumber(d) < YearStart(d.year) + YearLength(d.year)
  {
    MonthStep(d.year, d.month);
    DaysBeforeMonthMonotone(d.year, 0, d.month);
    DaysBeforeMonthMonotone(d.year, d.month + 1, 12);
  }

  /** A date that comes first in the calendar has the smaller day number. */
  lemma LessDayNumber(a: Date, b: Date)
    requires Valid(a) && Valid(b) && Less(a, b)
    ensures DayNumber(a) < DayNumber(b)
  {
    if a.year < b.year {
      DayNumberInYear(a);
      DayNumberInYear(b);
      YearStartMonotone(a.year, b.year);
    } else if a.month < b.month {
      MonthStep(a.year, a.month);
      DaysBeforeMonthMonotone(a.year, a.month + 1, b.month);
    }
  }

  /** Comparing two Date objects compares their time values: the field order is the day-number order. */
  lemma LessIsEarlier(a: Date, b: Date)
    requires Valid(a) && Valid(b)
    ensures Less(a, b) <==> DayNumber(a) < DayNumber(b)
    ensures a == b <==> DayNumber(a) == DayNumber(b)
  {
    if Less(a, b) {
      LessDayNumber(a, b);
    } else if Less(b, a) {
      LessDayNumber(b, a);
    } else {
      assert a == b;
    }
  }

  /** The date after `d` (`d.setDate(d.getDate() + 1)`). */
  function NextDay(d: Date): (r: Date)
    requires Valid(d)
    ensures Valid(r)
  {
    if d.day < MonthLength(d.year, d.month) then Date(d.year, d.month, d.day + 1)
    else if d.month < 11 then Date(d.year, d.month + 1, 1)
    else Date(d.year + 1, 0, 1)
  }

  /** The date before `d` (`d.setDate(d.getDate() - 1)`). */
  function PrevDay(d: Date): (r: Date)
    requires Valid(d)
    ensures Valid(r)
  {
    if d.day > 1 then Date(d.year, d.month, d.day - 1)
    else if d.month > 0 then Date(d.year, d.month - 1, MonthLength(d.year, d.month - 1))
    else Date(d.year - 1, 11, 31)
  }

  /** The next day is one day number on. */
  lemma NextDayNumber(d: Date)
    requires Valid(d)
    ensures DayNumber(NextDay(d)) == DayNumber(d) + 1
  {
    MonthStep(d.year, d.month);
    YearStartStep(d.year);
  }

  /** The previous day is one day number back. */
  lemma PrevDayNumber(d: Date)
    requires Valid(d)
    ensures DayNumber(PrevDay(d)) == DayNumber(d) - 1
  {
    if d.day == 1 {
      if d.month > 0 {
        MonthStep(d.year, d.month - 1);
      } else {
        MonthStep(d.year - 1, 11);
        YearStartStep(d.year - 1);
      }
    }
  }

  /** The date `k` days after `d` (before it when `k` is negative). */
  function AddDays(d: Date, k: int): (r: Date)
    requires Valid(d)
    ensures Valid(r)
    decreases if k >= 0 then k else -k
  {
    if k == 0 then d
    else if k > 0 then AddDays(NextDay(d), k - 1)
    else AddDays(PrevDay(d), k + 1)
  }

  /** `k` days on is `k` day numbers on. */
  lemma {:induction false} AddDaysNumber(d: Date, k: int)
    requires Valid(d)
    ensures DayNumber(AddDays(d, k)) == DayNumber(d) + k
    decreases if k >= 0 then k else -k
  {
    if k > 0 {
      assert AddDays(d, k) == AddDays(NextDay(d), k - 1);
      NextDayNumber(d);
      AddDaysNumber(NextDay(d), k - 1);
    } else if k < 0 {
      assert AddDays(d, k) == AddDays(PrevDay(d), k + 1);
      PrevDayNumber(d);
      AddDaysNumber(PrevDay(d), k + 1);
    }
  }

  /** Two valid dates with the same day number are the same date. */
  lemma DayNumberInjective(a: Date, b: Date)
    requires Valid(a) && Valid(b) && DayNumber(a) == DayNumber(b)
    ensures a == b
  {
    LessIsEarlier(a, b);
  }

  /** civil_from_days: the date with day number `n`. */
  function FromDayNumber(n: int): (r: Date)
    ensures Valid(r) && DayNumber(r) == n
  {
    AddDaysNumber(Epoch, n);
    AddDays(Epoch, n)
  }

  /** civil_from_days undoes days_from_civil. */
  lemma FromDayNumberOf(d: Date)
    requires Valid(d)
    ensures FromDayNumber(DayNumber(d)) == d
  {
    DayNumberInjective(FromDayNumber(DayNumber(d)), d);
  }

  /** Moving by `j` days and then by `k` days moves by `j + k` days. */
  lemma AddDaysAdd(d: Date, j: int, k: int)
    requires Valid(d)
    ensures AddDays(AddDays(d, j), k) == AddDays(d, j + k)
  {
    AddDaysNumber(d, j);
    AddDaysNumber(AddDays(d, j), k);
    AddDaysNumber(d, j + k);
    DayNumberInjective(AddDays(AddDays(d, j), k), AddDays(d, j + k));
  }

  /** One more day on is the next day (`d.setDate(d.getDate() + 1)`). */
  lemma AddDaysNext(d: Date, k: int)
    requires Valid(d)
    ensures AddDays(d, k + 1) == NextDay(AddDays(d, k))
  {
    AddDaysNumber(d, k + 1);
    AddDaysNumber(d, k);
    NextDayNumber(AddDays(d, k));
    DayNumberInjective(AddDays(d, k + 1), NextDay(AddDays(d, k)));
  }

  /** The date `k` days after `d` is later than `d` exactly when `k` is positive. */
  lemma AddDaysLess(d: Date, k: int)
    requires Valid(d)
    ensures Less(d, AddDays(d, k)) <==> k > 0
    ensures Less(AddDays(d, k), d) <==> k < 0
  {
    AddDaysNumber(d, k);
    LessIsEarlier(d, AddDays(d, k));
    LessIsEarlier(AddDays(d, k), d);
  }

  /** Day of the week, 0 for Sunday (`getDay`); 1970-01-01 was a Thursday. */
  function Weekday(d: Date): (w: int)
    requires Valid(d)
    ensures 0 <= w < 7
  {
    (DayNumber(d) + 4) % 7
  }

  /** Offsets equal as numbers give the same date. */
  lemma AddDaysSame(d: Date, j: int, k: int)
    requires Valid(d) && j == k
    ensures AddDays(d, j) == AddDays(d, k)
  {
  }

  /** `k` days on, the weekday has moved on by `k` (modulo a week). */
  lemma WeekdayAddDays(d: Date, k: int)
    requires Valid(d)
    ensures Weekday(AddDays(d, k)) == (Weekday(d) + k) % 7
  {
    AddDaysNumber(d, k);
    WeekShift(DayNumber(d) + 4, k);
  }

  lemma WeekShift(x: int, k: int)
    ensures (x + k) % 7 == (x % 7 + k) % 7
  {
    assert x + k == 7 * (x / 7) + (x % 7 + k);
  }

  /**
    The date the host's `new Date(year, month, day)`, `setMonth` and
    `setDate` produce: a month outside 0..11 carries into the year (floor
    division), and a day outside the month runs on into the neighbouring
    months.  Its day number is ECMAScript's MakeDay.
  */
  function MakeDate(year: int, month: int, day: int): (r: Date)
    ensures Valid(r)
  {
    AddDays(Date(year + month / 12, month % 12, 1), day - 1)
  }

  /** The day number of a built date is ECMAScript's MakeDay. */
  lemma MakeDateNumber(year: int, month: int, day: int)
    ensures DayNumber(MakeDate(year, month, day)) ==
      YearStart(year + month / 12) + DaysBeforeMonth(year + month / 12, month % 12) + day - 1
  {
    AddDaysNumber(Date(year + month / 12, month % 12, 1), day - 1);
  }

  /** Building a date that exists gives that date back. */
  lemma MakeDateOfValid(d: Date)
    requires Valid(d)
    ensures MakeDate(d.year, d.month, d.day) == d
  {
    assert d.month / 12 == 0 && d.month % 12 == d.month;
    MakeDateNumber(d.year, d.month, d.day);
    DayNumberInjective(MakeDate(d.year, d.month, d.day), d);
  }

  /**
    `d.setDate(d.getDate() + k)`: setting the day of the month past the
    month's end (or below 1) moves by whole days into the neighbouring months.
  */
  function ShiftDays(d: ValidDate, k: int): (r: Date)
    ensures r == AddDays(d, k)
  {
    assert d.month / 12 == 0 && d.month % 12 == d.month;
    MakeDateNumber(d.year, d.month, d.day + k);
    AddDaysNumber(d, k);
    DayNumberInjective(MakeDate(d.year, d.month, d.day + k), AddDays(d, k));
    MakeDate(d.year, d.month, d.day + k)
  }

  /**
    `d.setMonth(d.getMonth() + k)` on the 1st of a month, the only dates the
    widget calls it on: exactly `k` months on.
  */
  function AddMonths(d: Date, k: int): (r: Date)
    requires IsMonthStart(d)
    ensures r == MonthStart(MonthIndex(d) + k)
  {
    var i, y, m := MonthIndex(d) + k, d.year + (d.month + k) / 12, (d.month + k) % 12;
    assert 12 * y + m == i && i / 12 == y && i % 12 == m;
    assert MakeDate(d.year, d.month + k, d.day) == AddDays(Date(y, m, 1), 0);
    MakeDate(d.year, d.month + k, d.day)
  }

  /** The first day of a month. */
  predicate IsMonthStart(d: Date) {
    0 <= d.month < 12 && d.day == 1
  }

  /** Months counted from year 0: consecutive months have consecutive indices. */
  function MonthIndex(d: Date): int {
    12 * d.year + d.month
  }

  /** The first day of the month with index `i`. */
  function MonthStart(i: int): (r: Date)
    ensures IsMonthStart(r) && Valid(r) && MonthIndex(r) == i
  {
    Date(i / 12, i % 12, 1)
  }

  /** A month start is the month start of its own index. */
  lemma MonthStartOfIndex(d: Date)
    requires IsMonthStart(d)
    ensures MonthStart(MonthIndex(d)) == d
  {
    assert (12 * d.year + d.month) / 12 == d.year;
  }

  /** The month starts either side of a month start. */
  lemma MonthStartNeighbours(s: Date)
    requires IsMonthStart(s)
    ensures MonthStart(MonthIndex(s) + 1) ==
      if s.month < 11 then Date(s.year, s.month + 1, 1) else Date(s.year + 1, 0, 1)
    ensures MonthStart(MonthIndex(s) - 1) ==
      if s.month > 0 then Date(s.year, s.month - 1, 1) else Date(s.year - 1, 11, 1)
  {
    var i := MonthIndex(s);
    if s.month < 11 {
      assert i + 1 == 12 * s.year + (s.month + 1);
    } else {
      assert i + 1 == 12 * (s.year + 1) + 0;
    }
    if s.month > 0 {
      assert i - 1 == 12 * s.year + (s.month - 1);
    } else {
      assert i - 1 == 12 * (s.year - 1) + 11;
    }
  }

  /** The first day of the following month. */
  function NextMonth(s: Date): (r: Date)
    requires IsMonthStart(s)
    ensures IsMonthStart(r) && Valid(r) && MonthIndex(r) == MonthIndex(s) + 1
  {
    if s.month < 11 then Date(s.year, s.month + 1, 1) else Date(s.year + 1, 0, 1)
  }

  /** The first day of the preceding month. */
  function PrevMonth(s: Date): (r: Date)
    requires IsMonthStart(s)
    ensures IsMonthStart(r) && Valid(r) && MonthIndex(r) == MonthIndex(s) - 1
  {
    if s.month > 0 then Date(s.year, s.month - 1, 1) else Date(s.year - 1, 11, 1)
  }

  /** On a month start, `setMonth(getMonth() + 1)` and `setMonth(getMonth() - 1)` step one month. */
  lemma AddMonthsStep(s: Date)
    requires IsMonthStart(s)
    ensures AddMonths(s, 1) == NextMonth(s) && AddMonths(s, -1) == PrevMonth(s)
  {
    MonthStartNeighbours(s);
  }

  /** The days of a month, counted on from its first day. */
  lemma DaysOfMonth(s: Date, i: int)
    requires IsMonthStart(s) && 0 <= i < MonthLength(s.year, s.month)
    ensures AddDays(s, i) == Date(s.year, s.month, i + 1)
  {
    AddDaysNumber(s, i);
    DayNumberInjective(AddDays(s, i), Date(s.year, s.month, i + 1));
  }

  /** The day number of the 1st of the following month. */
  lemma NextMonthDayNumber(s: Date)
    requires IsMonthStart(s)
    ensures var n := if s.month < 11 then Date(s.year, s.month + 1, 1) else Date(s.year + 1, 0, 1);
      Valid(n) && DayNumber(n) == DayNumber(s) + MonthLength(s.year, s.month)
  {
    MonthStep(s.year, s.month);
    YearStartStep(s.year);
  }

  /** A month's length in days after its first day, the next month starts. */
  lemma NextMonthStart(s: Date)
    requires IsMonthStart(s)
    ensures AddDays(s, MonthLength(s.year, s.month)) == MonthStart(MonthIndex(s) + 1)
  {
    MonthStartNeighbours(s);
    NextMonthDayNumber(s);
    AddDaysNumber(s, MonthLength(s.year, s.month));
    DayNumberInjective(AddDays(s, MonthLength(s.year, s.month)), MonthStart(MonthIndex(s) + 1));
  }

  /** Counting back from a month's first day runs through the previous month. */
  lemma DaysBeforeMonthStart(s: Date, j: int)
    requires IsMonthStart(s)
    requires var p := MonthStart(MonthIndex(s) - 1); 1 <= j <= MonthLength(p.year, p.month)
    ensures var p := MonthStart(MonthIndex(s) - 1);
      AddDays(s, -j) == Date(p.year, p.month, MonthLength(p.year, p.month) + 1 - j)
  {
    var p := MonthStart(MonthIndex(s) - 1);
    NextMonthStart(p);
    MonthStartOfIndex(s);
    AddDaysNumber(s, -j);
    AddDaysNumber(p, MonthLength(p.year, p.month));
    DayNumberInjective(AddDays(s, -j), Date(p.year, p.month, MonthLength(p.year, p.month) + 1 - j));
  }

  /** Between month starts, the calendar order is the order of month indices. */
  lemma MonthStartLess(a: Date, b: Date)
    requires IsMonthStart(a) && IsMonthStart(b)
    ensures Less(a, b) <==> MonthIndex(a) < MonthIndex(b)
    ensures a == b <==> MonthIndex(a) == MonthIndex(b)
  {
  }

  /** `floorMonth`: the first day of the month that contains `d`. */
  function FloorMonth(d: Date): (r: Date)
    requires Valid(d)
    ensures IsMonthStart(r) && Valid(r)
    ensures r.year == d.year && r.month == d.month
    ensures LessEq(r, d)
  {
    Date(d.year, d.month, 1)
  }

  /** A date lies within the month that starts at its floor. */
  lemma FloorMonthSpan(d: Date)
    requires Valid(d)
    ensures DayNumber(FloorMonth(d)) <= DayNumber(d) < DayNumber(FloorMonth(d)) + MonthLength(d.year, d.month)
  {
  }

  /** Later dates lie in the same or a later month. */
  lemma MonthIndexMonotone(a: Date, b: Date)
    requires 0 <= a.month < 12 && 0 <= b.month < 12 && LessEq(a, b)
    ensures MonthIndex(a) <= MonthIndex(b)
  {
  }
}
