/**
  The selected range: how a click on a day moves `first` and `last`, what
  the bound input fields receive, which cells count as in range, how
  `show()` derives the range from the fields, and which months it lists.
*/
module Selection {
  import opened Wrappers
  import opened Dates
  import opened Text
  import opened Formats

  /** `first` and `last` of the picker; `last` is absent while a range is half chosen. */
  datatype Range = Range(first: ValidDate, last: Option<ValidDate>)

  /** A range that runs forwards (or is half chosen). */
  predicate Ordered(r: Range) {
    r.last.Some? ==> LessEq(r.first, r.last.value)
  }

  /**
    The day-cell click handler: with both ends set, the click starts a new
    range at the clicked date; with only `first` set, it closes the range,
    the earlier of the two dates becoming `first`.
  */
  function OnClick(r: Range, d: ValidDate): (r': Range)
    ensures r.last.Some? ==> r' == Range(d, None)
    ensures r.last.None? ==>
      r'.last.Some? && multiset{r'.first, r'.last.value} == multiset{r.first, d}
    ensures Ordered(r')
  {
    if r.last.Some? then Range(d, None)
    else if Less(d, r.first) then Range(d, Some(r.first))
    else Range(r.first, Some(d))
  }

  /** Two clicks on a complete range select the span between the clicked dates, in order. */
  lemma TwoClicks(r: Range, a: ValidDate, b: ValidDate)
    requires r.last.Some?
    ensures var r' := OnClick(OnClick(r, a), b);
      r'.last.Some? && multiset{r'.first, r'.last.value} == multiset{a, b}
      && LessEq(r'.first, r'.last.value)
  {
  }

  /** The number written to the days field: the days from `first` to `last` inclusive, 1 when `last` is absent. */
  function DaysCount(r: Range): (n: int)
    ensures r.last.None? ==> n == 1
    ensures n >= 1 <==> Ordered(r)
  {
    if r.last.Some? then
      LessIsEarlier(r.first, r.last.value);
      DayNumber(r.last.value) - DayNumber(r.first) + 1
    else 1
  }

  /** On a forward range the count is positive and counts exactly the dates from `first` to `last` (or `first`). */
  lemma DaysCountSpan(r: Range)
    requires Ordered(r)
    ensures DaysCount(r) >= 1
    ensures AddDays(r.first, DaysCount(r) - 1) == r.last.GetOr(r.first)
  {
    if r.last.Some? {
      LessIsEarlier(r.first, r.last.value);
      AddDaysNumber(r.first, DaysCount(r) - 1);
      DayNumberInjective(AddDays(r.first, DaysCount(r) - 1), r.last.value);
    }
  }

  /** What the click handler writes into the start, days and end fields. */
  datatype Fields = Fields(start: string, days: string, end: string)

  /**
    The days field always reads back as the days count; in `iso` the start
    and end fields are never empty.
  */
  function FieldValues(r: Range, f: Format, jsFormat: JsFormatter): (fv: Fields)
    ensures ToNumber(fv.days) == Some(DaysCount(r))
    ensures f == Iso ==> |fv.start| > 0 && |fv.end| > 0
  {
    ToNumberOfIntToString(DaysCount(r));
    Fields(FormatDate(f, jsFormat, r.first), IntToString(DaysCount(r)),
           FormatDate(f, jsFormat, r.last.GetOr(r.first)))
  }

  /**
    The `dr-inrange` test of a marker whose cell shows the date `d`: the
    cell's Date object is `first` itself (`isFirst`; `==` on two Date objects
    compares identity), or `d` lies between `first` and `last` (`<=` compares
    time values).
  */
  predicate InRange(d: ValidDate, isFirst: bool, r: Range): (b: bool)
    ensures isFirst ==> b
    ensures !isFirst ==>
      (b <==> r.last.Some? && DayNumber(r.first) <= DayNumber(d) <= DayNumber(r.last.value))
  {
    LessIsEarlier(r.first, d);
    LessIsEarlier(d, r.last.GetOr(d));
    isFirst || (LessEq(r.first, d) && r.last.Some? && LessEq(d, r.last.value))
  }

  /**
    On a complete forward range, exactly the dates from `first` to `last` are
    in range; on a half-chosen one, only the cell whose Date object is `first`.
  */
  lemma InRangeSpan(d: ValidDate, isFirst: bool, r: Range)
    requires Ordered(r) && (isFirst ==> d == r.first)
    ensures r.last.Some? ==>
      (InRange(d, isFirst, r) <==> DayNumber(r.first) <= DayNumber(d) <= DayNumber(r.last.value))
    ensures r.last.None? ==> (InRange(d, isFirst, r) <==> isFirst)
  {
    LessIsEarlier(r.first, d);
    if r.last.Some? {
      LessIsEarlier(d, r.last.value);
    }
  }

  /** An inverted range (as `show()` can derive from the fields) marks only the cell holding `first` itself, if any. */
  lemma InRangeInverted(d: ValidDate, isFirst: bool, r: Range)
    requires r.last.Some? && Less(r.last.value, r.first)
    ensures InRange(d, isFirst, r) <==> isFirst
  {
    LessIsEarlier(r.first, d);
    LessIsEarlier(d, r.last.value);
    LessIsEarlier(r.last.value, r.first);
  }

  /** `Math.max(Number(v) || 0, 1)`: the days field's number, at least 1. */
  function DaysField(v: string): (n: int)
    ensures n >= 1
    ensures ToNumber(v).Some? && ToNumber(v).value >= 1 ==> n == ToNumber(v).value
    ensures ToNumber(v).None? || ToNumber(v).value < 1 ==> n == 1
  {
    match ToNumber(v)
    case Some(k) => if k > 1 then k else 1
    case None => 1
  }

  /** The text of a field, read as a date when it is non-empty and some format parses it. */
  function ReadDate(v: Option<string>, f: Format, jsParse: JsParser): Option<ValidDate> {
    match v
    case Some(s) => if |s| > 0 then ParseDate(s, f, jsParse) else None
    case None => None
  }

  /** `show()`'s days count: the days field's number when one is bound, else 0. */
  function DaysOption(days: Option<string>): (n: int)
    ensures days.Some? ==> n >= 1
    ensures days.None? ==> n == 0
    ensures days.Some? ==> n == DaysField(days.value)
  {
    if days.Some? then DaysField(days.value) else 0
  }

  /**
    The range `show()` derives from the dates read from the start and end
    fields and the days count `n` (0 without a days field), with `today`
    for what is missing.
  */
  function DeriveRange(first0: Option<ValidDate>, last0: Option<ValidDate>, n: int, today: ValidDate): (r: Range)
    ensures r.last.Some?
    ensures first0.Some? ==> r.first == first0.value
    ensures last0.Some? ==> r.last == last0
    ensures n == 0 ==> r == Range(first0.GetOr(today), Some(last0.GetOr(today)))
  {
    var last1 := if n != 0 && first0.None? then Some(last0.GetOr(today)) else last0;
    var first1 := if n != 0 && first0.None? then Some(ShiftDays(last1.value, -n + 1)) else first0;
    var last2 := if n != 0 && last1.None? then Some(ShiftDays(first1.value, n - 1)) else last1;
    Range(first1.GetOr(today), Some(last2.GetOr(today)))
  }

  /** The range `show()` derives from the start field, the end field (if bound) and the days field (if bound). */
  function InitialRange(start: string, end: Option<string>, days: Option<string>, f: Format,
                        jsParse: JsParser, today: ValidDate): (r: Range)
    ensures r.last.Some?
    ensures ReadDate(Some(start), f, jsParse).Some? ==> r.first == ReadDate(Some(start), f, jsParse).value
    ensures ReadDate(end, f, jsParse).Some? ==> r.last == ReadDate(end, f, jsParse)
    ensures days.None? ==> r == Range(ReadDate(Some(start), f, jsParse).GetOr(today),
                                      Some(ReadDate(end, f, jsParse).GetOr(today)))
  {
    DeriveRange(ReadDate(Some(start), f, jsParse), ReadDate(end, f, jsParse), DaysOption(days), today)
  }

  /** With a days count and no end date, the range runs `n - 1` days on from the start. */
  lemma DeriveFromStart(fs: ValidDate, n: int, today: ValidDate)
    requires n >= 1
    ensures DeriveRange(Some(fs), None, n, today) == Range(fs, Some(AddDays(fs, n - 1)))
  {
  }

  /** With a days count and no start date, the range ends at the end date (or today) and runs `n - 1` days back. */
  lemma DeriveToEnd(last0: Option<ValidDate>, n: int, today: ValidDate)
    requires n >= 1
    ensures DeriveRange(None, last0, n, today)
      == Range(AddDays(last0.GetOr(today), 1 - n), Some(last0.GetOr(today)))
  {
    var l := last0.GetOr(today);
    assert DeriveRange(None, last0, n, today) == Range(ShiftDays(l, -n + 1), Some(l));
  }

  /** With a days field and at most one date read, the derived range covers exactly that many days. */
  lemma InitialRangeDays(start: string, end: Option<string>, days: string, f: Format,
                         jsParse: JsParser, today: ValidDate)
    requires ReadDate(Some(start), f, jsParse).None? || ReadDate(end, f, jsParse).None?
    ensures var r := InitialRange(start, end, Some(days), f, jsParse, today);
      Ordered(r) && DaysCount(r) == DaysField(days)
  {
    var r := InitialRange(start, end, Some(days), f, jsParse, today);
    var fs, ls := ReadDate(Some(start), f, jsParse), ReadDate(end, f, jsParse);
    var n := DaysField(days);
    if fs.None? {
      DeriveToEnd(ls, n, today);
      AddDaysNumber(ls.GetOr(today), 1 - n);
    } else {
      DeriveFromStart(fs.value, n, today);
      AddDaysNumber(fs.value, n - 1);
    }
    LessIsEarlier(r.first, r.last.value);
  }

  /** "2024-03-15" is an `iso` text naming 15 March 2024. */
  lemma ExampleStartText()
    ensures IsIsoText("2024-03-15") && IsoTextDate("2024-03-15") == Date(2024, 2, 15)
  {
    var s := "2024-03-15";
    FourDigits(s[..4]);
    TwoDigits(s[5..7]);
    TwoDigits(s[8..]);
  }

  /** 15 March 2024 and four days on is 19 March 2024. */
  lemma ExampleFourDaysOn()
    ensures AddDays(Date(2024, 2, 15), 4) == Date(2024, 2, 19)
  {
    DaysOfMonth(Date(2024, 2, 1), 14);
    DaysOfMonth(Date(2024, 2, 1), 18);
    AddDaysAdd(Date(2024, 2, 1), 14, 4);
  }

  /** A start of 2024-03-15 with 5 days gives a range ending on 2024-03-19. */
  lemma InitialRangeExample(start: string, days: string, jsParse: JsParser, today: ValidDate)
    requires start == "2024-03-15" && days == "5"
    ensures InitialRange(start, None, Some(days), Iso, jsParse, today)
      == Range(Date(2024, 2, 15), Some(Date(2024, 2, 19)))
  {
    ExampleStartText();
    ParseDateIsoText(start, jsParse);
    assert DaysField(days) == 5 by {
      assert AllDigits(days) && days[..0] == [];
    }
    DeriveFromStart(Date(2024, 2, 15), 5, today);
    ExampleFourDaysOn();
  }

  /** Reading a field written in `iso` gives the date back, for years from 100 on. */
  lemma ReadIsoFormat(d: ValidDate, jsParse: JsParser)
    requires d.year >= 100 && InTimeRange(d)
    ensures ReadDate(Some(IsoFormat(d)), Iso, jsParse) == Some(d)
  {
    IsoParseFormat(d);
    ReadIsoText(IsoFormat(d), d, jsParse);
  }

  /** A non-empty field whose `iso` reading is the date `d` reads as `d` with `iso` preferred. */
  lemma ReadIsoText(s: string, d: ValidDate, jsParse: JsParser)
    requires |s| > 0 && IsoParse(s) == Time(d)
    ensures ReadDate(Some(s), Iso, jsParse) == Some(d)
  {
    assert TryParser(Iso, jsParse, s) == Some(d);
  }

  /**
    After a click the fields, read back with the `iso` format, give the
    range again (a half-chosen range comes back as the one-day range).
  */
  lemma FieldsReadBack(r: Range, jsParse: JsParser, jsFormat: JsFormatter, today: ValidDate)
    requires Ordered(r)
    requires r.first.year >= 100 && InTimeRange(r.first)
    requires r.last.Some? ==> InTimeRange(r.last.value)
    ensures var fv := FieldValues(r, Iso, jsFormat);
      InitialRange(fv.start, Some(fv.end), Some(fv.days), Iso, jsParse, today)
        == Range(r.first, Some(r.last.GetOr(r.first)))
  {
    var l := r.last.GetOr(r.first);
    var fv := FieldValues(r, Iso, jsFormat);
    ReadIsoFormat(r.first, jsParse);
    MonthIndexMonotone(r.first, l);
    ReadIsoFormat(l, jsParse);
  }

  /** Index of the first month that starts on or after `first`. */
  function FirstMonthFrom(first: ValidDate): int {
    if first.day == 1 then MonthIndex(first) else MonthIndex(first) + 1
  }

  /** A month start is not before `first` exactly when it is at or past `FirstMonthFrom(first)`. */
  lemma MonthStartNotBefore(d: Date, first: ValidDate)
    requires IsMonthStart(d)
    ensures !Less(d, first) <==> MonthIndex(d) >= FirstMonthFrom(first)
  {
  }

  /** The `n` consecutive month starts from the month start `s` on. */
  function MonthRange(s: Date, n: nat): (ms: seq<ValidDate>)
    requires IsMonthStart(s)
    ensures |ms| == n
    decreases n
  {
    if n == 0 then []
    else
      var m: ValidDate := s;
      [m] + MonthRange(NextMonth(s), n - 1)
  }

  /** Month ranges from the same start and of the same length are the same list. */
  lemma MonthRangeSame(s: Date, n: nat, s': Date, n': nat)
    requires IsMonthStart(s) && s == s' && n == n'
    ensures MonthRange(s, n) == MonthRange(s', n')
  {
  }

  /** Consecutive month starts. */
  predicate Consecutive(ms: seq<Date>) {
    forall i :: 0 <= i < |ms| ==> IsMonthStart(ms[i]) && MonthIndex(ms[i]) == MonthIndex(ms[0]) + i
  }

  /** A month range starts at `s` and its months follow one another. */
  lemma {:induction false} MonthRangeConsecutive(s: Date, n: nat)
    requires IsMonthStart(s)
    ensures Consecutive(MonthRange(s, n)) && (n > 0 ==> MonthRange(s, n)[0] == s)
    decreases n
  {
    if n > 0 {
      var ms, rest := MonthRange(s, n), MonthRange(NextMonth(s), n - 1);
      MonthRangeConsecutive(NextMonth(s), n - 1);
      forall i | 0 <= i < n
        ensures IsMonthStart(ms[i]) && MonthIndex(ms[i]) == MonthIndex(ms[0]) + i
      {
        if i > 0 {
          assert ms[i] == rest[i - 1];
        }
      }
    }
  }

  /** A month start is in a range of months exactly when its index is. */
  lemma InMonthRange(s: Date, n: nat, d: Date)
    requires IsMonthStart(s) && IsMonthStart(d)
    ensures d in MonthRange(s, n) <==> MonthIndex(s) <= MonthIndex(d) < MonthIndex(s) + n
  {
    var ms := MonthRange(s, n);
    MonthRangeConsecutive(s, n);
    if MonthIndex(s) <= MonthIndex(d) < MonthIndex(s) + n {
      var k := MonthIndex(d) - MonthIndex(s);
      MonthStartOfIndex(d);
      MonthStartOfIndex(ms[k]);
      assert ms[k] == d;
    }
  }

  /** The month before the first of consecutive months extends them. */
  lemma ConsecutivePrepend(ms: seq<Date>)
    requires |ms| > 0 && Consecutive(ms)
    ensures Consecutive([PrevMonth(ms[0])] + ms)
  {
    var ns := [PrevMonth(ms[0])] + ms;
    forall i | 0 <= i < |ns|
      ensures IsMonthStart(ns[i]) && MonthIndex(ns[i]) == MonthIndex(ns[0]) + i
    {
      if i > 0 {
        assert ns[i] == ms[i - 1];
      }
    }
  }

  /** The month after the last of consecutive months extends them. */
  lemma ConsecutiveAppend(ms: seq<Date>)
    requires |ms| > 0 && Consecutive(ms)
    ensures Consecutive(ms + [NextMonth(ms[|ms| - 1])])
  {
    var ns := ms + [NextMonth(ms[|ms| - 1])];
    forall i | 0 <= i < |ns|
      ensures IsMonthStart(ns[i]) && MonthIndex(ns[i]) == MonthIndex(ns[0]) + i
    {
      if i < |ms| {
        assert ns[i] == ms[i];
      }
    }
  }

  /** The lowest month index `show()` lists. */
  function LowMonth(first: ValidDate, last: ValidDate): int {
    var hi := MonthIndex(last);
    if FirstMonthFrom(first) < hi - 2 then FirstMonthFrom(first) else hi - 2
  }

  /**
    The months `show()` lists: from the month of `last` back while the month
    start is not before `first`, and in any case at least three months.
  */
  function InitialMonths(first: ValidDate, last: ValidDate): (ms: seq<ValidDate>)
    ensures |ms| >= 3 && Consecutive(ms) && ms[|ms| - 1] == FloorMonth(last)
  {
    var lo := LowMonth(first, last);
    var ms := MonthRange(MonthStart(lo), MonthIndex(last) - lo + 1);
    MonthRangeConsecutive(MonthStart(lo), MonthIndex(last) - lo + 1);
    MonthStartOfIndex(FloorMonth(last));
    MonthStartOfIndex(ms[|ms| - 1]);
    ms
  }

  /** The month list is the `n` months from the month start `s` of the lowest month. */
  lemma InitialMonthsFrom(first: ValidDate, last: ValidDate, s: Date, n: nat)
    requires IsMonthStart(s) && MonthIndex(s) == LowMonth(first, last)
    requires n == MonthIndex(last) - LowMonth(first, last) + 1
    ensures InitialMonths(first, last) == MonthRange(s, n)
  {
    var lo := LowMonth(first, last);
    MonthStartOfIndex(s);
    MonthRangeSame(MonthStart(lo), MonthIndex(last) - lo + 1, s, n);
  }

  /** Every month start from `first` to `last` is listed. */
  lemma InitialMonthsCover(first: ValidDate, last: ValidDate, d: Date)
    requires IsMonthStart(d) && LessEq(first, d) && LessEq(d, last)
    ensures d in InitialMonths(first, last)
  {
    MonthStartNotBefore(d, first);
    MonthIndexMonotone(d, last);
    InMonthRange(MonthStart(LowMonth(first, last)), MonthIndex(last) - LowMonth(first, last) + 1, d);
  }

  /** The first listed month starts on or after `first`, unless the list was padded to three months. */
  lemma InitialMonthsStart(first: ValidDate, last: ValidDate)
    ensures var ms := InitialMonths(first, last);
      LessEq(first, ms[0]) || |ms| == 3
  {
    var lo := LowMonth(first, last);
    MonthRangeConsecutive(MonthStart(lo), MonthIndex(last) - lo + 1);
    MonthStartNotBefore(InitialMonths(first, last)[0], first);
  }

  /** The month of `first` is listed exactly when `first` is a 1st or the list had to be padded to reach it. */
  lemma InitialMonthsIncludeFirst(first: ValidDate, last: ValidDate)
    requires LessEq(first, last)
    ensures FloorMonth(first) in InitialMonths(first, last)
      <==> first.day == 1 || MonthIndex(first) >= MonthIndex(last) - 2
  {
    MonthIndexMonotone(first, last);
    InMonthRange(MonthStart(LowMonth(first, last)), MonthIndex(last) - LowMonth(first, last) + 1, FloorMonth(first));
  }

  /** The index of the last visible month: `nmonths` on from the scroll index, or the last listed one. */
  function LastVisible(months: seq<ValidDate>, scrollIndex: int, nmonths: int): (index: int)
    requires 0 <= scrollIndex < |months| && nmonths >= 1
    ensures scrollIndex <= index < |months|
  {
    (if scrollIndex + nmonths < |months| then scrollIndex + nmonths else |months|) - 1
  }

  /**
    `_setScroll` hides the right arrow (under `nofuture`) when the month
    after the last visible one starts after today: exactly when the last
    visible month is today's month or a later one.
  */
  predicate RightArrowHidden(months: seq<ValidDate>, scrollIndex: int, nmonths: int, today: ValidDate): (b: bool)
    requires 0 <= scrollIndex < |months| && nmonths >= 1
    requires IsMonthStart(months[LastVisible(months, scrollIndex, nmonths)])
    ensures b <==> ShowsToday(months, scrollIndex, nmonths, today)
  {
    Less(today, AddMonths(months[LastVisible(months, scrollIndex, nmonths)], 1))
  }

  /** The last visible month is today's month or a later one. */
  predicate ShowsToday(months: seq<ValidDate>, scrollIndex: int, nmonths: int, today: ValidDate)
    requires 0 <= scrollIndex < |months| && nmonths >= 1
  {
    MonthIndex(months[LastVisible(months, scrollIndex, nmonths)]) >= MonthIndex(today)
  }
}
