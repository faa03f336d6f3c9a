/**
  The month grid `_renderMonth` draws: whole Sunday-to-Saturday weeks from
  the Sunday on or before the 1st to the Saturday on or after the last day,
  each cell classified as overflow (another month), future (after today,
  when future dates are barred), today, and clickable.
*/
module Grid {
  import opened Wrappers
  import opened Dates
  import opened Text

  /** A day cell. A `future` cell gets no click handler and no marker; every other cell is clickable. */
  datatype Cell = Cell(date: ValidDate, overflow: bool, future: bool, today: bool) {
    predicate Clickable() {
      !future
    }
  }

  /** A rendered month: its title and its day cells in order. */
  datatype MonthView = MonthView(title: string, cells: seq<Cell>)

  const MonthNames: seq<string> := ["January", "February", "March", "April", "May", "June",
    "July", "August", "September", "October", "November", "December"]

  /**
    The month title: the month's name, followed by the year for January
    only.  Only January's title carries the year, and it can be read back
    from it.
  */
  function Title(s: Date): (t: string)
    requires 0 <= s.month < 12
    ensures s.month == 0 ==> |t| > 8 && t[..8] == "January " && ToNumber(t[8..]) == Some(s.year)
    ensures s.month != 0 ==> forall i :: 0 <= i < |t| ==> !IsDigit(t[i])
  {
    if s.month == 0 then
      var t := MonthNames[0] + " " + IntToString(s.year);
      assert t[..8] == "January " && t[8..] == IntToString(s.year);
      ToNumberOfIntToString(s.year);
      t
    else
      MonthNameLetters(s.month);
      MonthNames[s.month]
  }

  /** No month name holds a digit. */
  lemma MonthNameLetters(k: int)
    requires 0 <= k < 12
    ensures forall i :: 0 <= i < |MonthNames[k]| ==> !IsDigit(MonthNames[k][i])
  {
  }

  /** Number of overflow cells before the 1st: the weekday of the 1st. */
  function Lead(s: ValidDate): (n: int)
    ensures 0 <= n < 7
  {
    Weekday(s)
  }

  /** Number of overflow cells after the last day, up to the next Saturday. */
  function Trail(s: ValidDate): (n: int)
    ensures 0 <= n < 7
  {
    (7 - (Weekday(s) + MonthLength(s.year, s.month)) % 7) % 7
  }

  function GridLength(s: ValidDate): int {
    Lead(s) + MonthLength(s.year, s.month) + Trail(s)
  }

  /** The date of cell `i` of the grid of month `s`. */
  function CellDate(s: ValidDate, i: int): ValidDate {
    AddDays(s, i - Lead(s))
  }

  /** Each cell's date is the day after the one before. */
  lemma CellDateNext(s: ValidDate, i: int)
    ensures CellDate(s, i + 1) == NextDay(CellDate(s, i))
  {
    AddDaysNext(s, i - Lead(s));
  }

  /**
    Cell `i` of the grid of month `s`, given today's date and the `nofuture`
    option: clickable exactly when future dates are allowed or its date is
    today or earlier, and marked today only on today's date in the month's
    own cells.
  */
  function CellAt(s: ValidDate, today: ValidDate, nofuture: bool, i: int): (c: Cell)
    ensures c.Clickable() <==> !nofuture || LessEq(c.date, today)
    ensures c.today ==> !c.overflow && c.date == today
  {
    var d := CellDate(s, i);
    var overflow := i < Lead(s) || i >= Lead(s) + MonthLength(s.year, s.month);
    Cell(d, overflow, nofuture && Less(today, d), !overflow && d == today)
  }

  /** The first `n` cells of the grid. */
  function GridCells(s: ValidDate, today: ValidDate, nofuture: bool, n: nat): (cells: seq<Cell>)
    ensures |cells| == n
  {
    if n == 0 then [] else GridCells(s, today, nofuture, n - 1) + [CellAt(s, today, nofuture, n - 1)]
  }

  /** Cell `i` of the grid is `CellAt(i)`, however many cells follow it. */
  lemma {:induction false} GridCellAt(s: ValidDate, today: ValidDate, nofuture: bool, n: nat, i: int)
    requires 0 <= i < n
    ensures GridCells(s, today, nofuture, n)[i] == CellAt(s, today, nofuture, i)
  {
    if i < n - 1 {
      GridCellAt(s, today, nofuture, n - 1, i);
    }
  }

  /** The grid grows one cell at a time. */
  lemma GridCellsNext(s: ValidDate, today: ValidDate, nofuture: bool, n: nat)
    ensures GridCells(s, today, nofuture, n + 1) == GridCells(s, today, nofuture, n) + [CellAt(s, today, nofuture, n)]
  {
  }

  /**
    What `_renderMonth(d0)` draws for the month containing `d0`: four, five
    or six whole weeks of cells, none clickable after today under `nofuture`.
  */
  function RenderedMonth(d0: ValidDate, today: ValidDate, nofuture: bool): (v: MonthView)
    ensures |v.cells| % 7 == 0 && 28 <= |v.cells| <= 42
    ensures nofuture ==> ClickableBy(v.cells, today)
  {
    var s := FloorMonth(d0);
    GridLengthWeeks(s);
    GridClickableBy(s, today, nofuture, GridLength(s));
    MonthView(Title(s), GridCells(s, today, nofuture, GridLength(s)))
  }

  /** No clickable cell holds a date after `h`. */
  predicate ClickableBy(cells: seq<Cell>, h: ValidDate) {
    forall i :: 0 <= i < |cells| && cells[i].Clickable() ==> LessEq(cells[i].date, h)
  }

  /** Under `nofuture`, no clickable cell of the grid is after today. */
  lemma GridClickableBy(s: ValidDate, today: ValidDate, nofuture: bool, n: nat)
    ensures nofuture ==> ClickableBy(GridCells(s, today, nofuture, n), today)
  {
    forall i | 0 <= i < n
      ensures GridCells(s, today, nofuture, n)[i] == CellAt(s, today, nofuture, i)
    {
      GridCellAt(s, today, nofuture, n, i);
    }
  }

  /** The dates of the clickable cells in order: the dates given a click handler and a marker. */
  function ClickableDates(cells: seq<Cell>): (ds: seq<ValidDate>)
    ensures |ds| <= |cells|
    decreases |cells|
  {
    if |cells| == 0 then []
    else
      var c := cells[|cells| - 1];
      ClickableDates(cells[..|cells| - 1]) + (if c.Clickable() then [c.date] else [])
  }

  /** One more cell adds its date when it is clickable. */
  lemma ClickableDatesSnoc(cells: seq<Cell>, c: Cell)
    ensures ClickableDates(cells + [c]) == ClickableDates(cells) + (if c.Clickable() then [c.date] else [])
  {
    assert (cells + [c])[..|cells|] == cells;
  }

  /** Each marked date comes from a clickable cell. */
  lemma {:induction false} ClickableDatesFrom(cells: seq<Cell>, d: ValidDate)
    requires d in ClickableDates(cells)
    ensures exists i :: 0 <= i < |cells| && cells[i].date == d && cells[i].Clickable()
    decreases |cells|
  {
    var c := cells[|cells| - 1];
    if d in ClickableDates(cells[..|cells| - 1]) {
      ClickableDatesFrom(cells[..|cells| - 1], d);
      var i :| 0 <= i < |cells| - 1 && cells[..|cells| - 1][i].date == d && cells[..|cells| - 1][i].Clickable();
      assert cells[i] == cells[..|cells| - 1][i];
    } else {
      assert c.Clickable() && c.date == d;
    }
  }

  /** Up to a week before a month start lies in the month before. */
  lemma DaysBefore(s: ValidDate, j: int)
    requires IsMonthStart(s) && 1 <= j <= 7
    ensures var d := AddDays(s, -j); d.month != s.month && d.day == MonthLength(d.year, d.month) + 1 - j
  {
    MonthStartNeighbours(s);
    DaysBeforeMonthStart(s, j);
  }

  /** Up to a week after a month's last day lies in the month after. */
  lemma DaysAfter(s: ValidDate, k: int)
    requires IsMonthStart(s) && 0 <= k < 7
    ensures var d := AddDays(s, MonthLength(s.year, s.month) + k); d.month != s.month && d.day == k + 1
  {
    var n := MonthStart(MonthIndex(s) + 1);
    MonthStartNeighbours(s);
    NextMonthStart(s);
    AddDaysAdd(s, MonthLength(s.year, s.month), k);
    DaysOfMonth(n, k);
  }

  /** Within a week either side of a month, a date lies in the month exactly when it is one of its days. */
  lemma NearMonth(s: ValidDate, k: int)
    requires IsMonthStart(s) && -7 <= k < MonthLength(s.year, s.month) + 7
    ensures var d := AddDays(s, k);
      (d.month == s.month <==> 0 <= k < MonthLength(s.year, s.month))
      && (0 <= k < MonthLength(s.year, s.month) ==> d == Date(s.year, s.month, k + 1))
  {
    var ml := MonthLength(s.year, s.month);
    if k < 0 {
      DaysBefore(s, -k);
    } else if k < ml {
      DaysOfMonth(s, k);
    } else {
      DaysAfter(s, k - ml);
    }
  }

  /** Where cell `i` of the grid falls: before, in, or after the month. */
  lemma GridDay(s: ValidDate, i: int)
    requires IsMonthStart(s) && 0 <= i < GridLength(s)
    ensures var d := AddDays(s, i - Lead(s));
      var inMonth := Lead(s) <= i < Lead(s) + MonthLength(s.year, s.month);
      (d.month == s.month <==> inMonth)
      && (d.year == s.year && d.month == s.month <==> inMonth)
      && (inMonth ==> d == Date(s.year, s.month, i - Lead(s) + 1))
  {
    NearMonth(s, i - Lead(s));
  }

  /** The grid starts on a Sunday and moves on one weekday per cell. */
  lemma GridWeekday(s: ValidDate, i: int)
    ensures Weekday(CellDate(s, i)) == i % 7
  {
    WeekdayAddDays(s, i - Lead(s));
  }

  /** Lead, month and trail add up to four, five or six whole weeks. */
  lemma GridLengthWeeks(s: ValidDate)
    ensures GridLength(s) % 7 == 0 && 28 <= GridLength(s) <= 42
    ensures (GridLength(s) - 1) % 7 == 6
  {
    var w, ml := Lead(s), MonthLength(s.year, s.month);
    var q, r := (w + ml) / 7, (w + ml) % 7;
    assert w + ml == 7 * q + r && 4 <= q <= 5;
    var k := if r == 0 then q else q + 1;
    assert Trail(s) == 7 * k - (w + ml);
    assert GridLength(s) == 7 * k && 4 <= k <= 6;
  }

  /** The grid's first cell is a Sunday. */
  lemma GridFirstSunday(s: ValidDate, today: ValidDate, nofuture: bool)
    requires IsMonthStart(s)
    ensures var cells := GridCells(s, today, nofuture, GridLength(s));
      Weekday(cells[0].date) == 0
  {
    GridCellAt(s, today, nofuture, GridLength(s), 0);
    GridWeekday(s, 0);
  }

  /** The grid's last cell is a Saturday. */
  lemma GridLastSaturday(s: ValidDate, today: ValidDate, nofuture: bool)
    requires IsMonthStart(s)
    ensures var cells := GridCells(s, today, nofuture, GridLength(s));
      Weekday(cells[|cells| - 1].date) == 6
  {
    GridLengthWeeks(s);
    GridCellAt(s, today, nofuture, GridLength(s), GridLength(s) - 1);
    GridWeekday(s, GridLength(s) - 1);
  }

  /** Each cell of the grid holds the day after the cell before. */
  lemma GridNextDay(s: ValidDate, today: ValidDate, nofuture: bool, i: int)
    requires 0 < i < GridLength(s)
    ensures var cells := GridCells(s, today, nofuture, GridLength(s));
      cells[i].date == NextDay(cells[i - 1].date)
  {
    var j := i - 1;
    GridCellAt(s, today, nofuture, GridLength(s), i);
    GridCellAt(s, today, nofuture, GridLength(s), j);
    CellDateNext(s, j);
    assert j + 1 == i;
  }

  /** The grid is whole weeks: Sunday first, Saturday last, and each cell the day after the one before. */
  lemma GridWholeWeeks(s: ValidDate, today: ValidDate, nofuture: bool)
    requires IsMonthStart(s)
    ensures var cells := GridCells(s, today, nofuture, GridLength(s));
      |cells| % 7 == 0 && 28 <= |cells| <= 42
      && Weekday(cells[0].date) == 0 && Weekday(cells[|cells| - 1].date) == 6
      && forall i :: 0 < i < |cells| ==> cells[i].date == NextDay(cells[i - 1].date)
  {
    GridFirstSunday(s, today, nofuture);
    GridLastSaturday(s, today, nofuture);
    GridLengthWeeks(s);
    forall i | 0 < i < GridLength(s)
      ensures GridCells(s, today, nofuture, GridLength(s))[i].date == NextDay(GridCells(s, today, nofuture, GridLength(s))[i - 1].date)
    {
      GridNextDay(s, today, nofuture, i);
    }
  }

  /**
    The grid runs from the Sunday on or before the 1st to the Saturday on or
    after the month's last day: fewer than seven overflow cells either side.
  */
  lemma GridSpan(s: ValidDate)
    requires IsMonthStart(s)
    ensures 0 <= Lead(s) < 7 && 0 <= Trail(s) < 7
    ensures CellDate(s, Lead(s)) == s
    ensures CellDate(s, GridLength(s) - 1 - Trail(s)) == Date(s.year, s.month, MonthLength(s.year, s.month))
  {
    var ml := MonthLength(s.year, s.month);
    var i, j := Lead(s), GridLength(s) - 1 - Trail(s);
    assert j == Lead(s) + ml - 1;
    GridDay(s, i);
    GridDay(s, j);
    var a, b := CellDate(s, i), CellDate(s, j);
    assert a.year == s.year && a.month == s.month && a.day == 1;
    assert b.year == s.year && b.month == s.month && b.day == ml;
  }

  /** A cell is overflow exactly when its date lies in another month; the other cells are the month's days in order. */
  lemma GridOverflow(s: ValidDate, today: ValidDate, nofuture: bool, i: int)
    requires IsMonthStart(s) && 0 <= i < GridLength(s)
    ensures var c := GridCells(s, today, nofuture, GridLength(s))[i];
      (c.overflow <==> !(c.date.year == s.year && c.date.month == s.month))
      && (!c.overflow ==> c.date == Date(s.year, s.month, i - Lead(s) + 1))
  {
    GridCellAt(s, today, nofuture, GridLength(s), i);
    GridDay(s, i);
  }

  /**
    Under `nofuture`, exactly the cells after today are future cells; today
    is marked only in the month's own cells, and only on today's date.
  */
  lemma GridMarks(s: ValidDate, today: ValidDate, nofuture: bool, i: int)
    requires IsMonthStart(s) && 0 <= i < GridLength(s)
    ensures var c := GridCells(s, today, nofuture, GridLength(s))[i];
      (c.future <==> nofuture && Less(today, c.date))
      && (c.Clickable() && nofuture ==> LessEq(c.date, today))
      && (c.today <==> !c.overflow && c.date == today)
  {
    GridCellAt(s, today, nofuture, GridLength(s), i);
  }

  /** When today lies in the month, its cell is the one marked today. */
  lemma GridToday(s: ValidDate, today: ValidDate, nofuture: bool)
    requires IsMonthStart(s) && today.year == s.year && today.month == s.month
    ensures var cells := GridCells(s, today, nofuture, GridLength(s));
      var k := Lead(s) + today.day - 1;
      0 <= k < |cells| && cells[k].today && cells[k].date == today
  {
    GridCellAt(s, today, nofuture, GridLength(s), Lead(s) + today.day - 1);
    GridDay(s, Lead(s) + today.day - 1);
  }

  /** The cells before the 1st: overflow cells of another month, until the 1st itself. */
  lemma LeadCell(s: ValidDate, today: ValidDate, nofuture: bool, i: int)
    requires IsMonthStart(s) && 0 <= i <= Lead(s)
    ensures CellDate(s, i).month == s.month <==> i == Lead(s)
    ensures i == Lead(s) ==> CellDate(s, i) == s
    ensures i < Lead(s) ==> CellAt(s, today, nofuture, i) == Cell(CellDate(s, i), true, nofuture && Less(today, CellDate(s, i)), false)
  {
    NearMonth(s, i - Lead(s));
    if i == Lead(s) {
      assert CellDate(s, i) == AddDays(s, 0);
    }
  }

  /**
    The month's own cells: not overflow, and marked today exactly when the
    day is `todaysDate`, today's day when today lies in the month and 0
    otherwise.
  */
  lemma DayCell(s: ValidDate, today: ValidDate, nofuture: bool, todaysDate: int, i: int)
    requires IsMonthStart(s) && Lead(s) <= i <= Lead(s) + MonthLength(s.year, s.month)
    requires todaysDate == if today.year == s.year && today.month == s.month then today.day else 0
    ensures CellDate(s, i).month == s.month <==> i < Lead(s) + MonthLength(s.year, s.month)
    ensures i < Lead(s) + MonthLength(s.year, s.month) ==>
      var d := CellDate(s, i);
      CellAt(s, today, nofuture, i) == Cell(d, false, nofuture && Less(today, d), d.day == todaysDate)
  {
    NearMonth(s, i - Lead(s));
  }

  /** The cells after the month's last day: overflow cells, up to the Saturday that ends the grid. */
  lemma TrailCell(s: ValidDate, today: ValidDate, nofuture: bool, i: int)
    requires IsMonthStart(s) && Lead(s) + MonthLength(s.year, s.month) <= i <= GridLength(s)
    ensures Weekday(CellDate(s, i)) == 0 <==> i == GridLength(s)
    ensures i < GridLength(s) ==> CellAt(s, today, nofuture, i) == Cell(CellDate(s, i), true, nofuture && Less(today, CellDate(s, i)), false)
  {
    GridLengthWeeks(s);
    GridWeekday(s, i);
    LastWeekStart(i, GridLength(s));
  }

  /** Within the last week up to a multiple of 7, only that multiple is one. */
  lemma LastWeekStart(i: int, n: int)
    requires n % 7 == 0 && n - 7 < i <= n
    ensures i % 7 == 0 <==> i == n
  {
  }

  /** Under `nofuture`, every marked date is today or earlier; otherwise every cell is marked. */
  lemma {:induction false} ClickableDatesNotFuture(s: ValidDate, today: ValidDate, nofuture: bool, n: nat)
    ensures var ds := ClickableDates(GridCells(s, today, nofuture, n));
      (nofuture ==> forall j :: 0 <= j < |ds| ==> LessEq(ds[j], today))
      && (!nofuture ==> |ds| == n)
  {
    var cells := GridCells(s, today, nofuture, n);
    var ds := ClickableDates(cells);
    if nofuture {
      forall j | 0 <= j < |ds| ensures LessEq(ds[j], today) {
        ClickableDatesFrom(cells, ds[j]);
        var k :| 0 <= k < |cells| && cells[k].date == ds[j] && cells[k].Clickable();
        GridCellAt(s, today, nofuture, n, k);
      }
    } else if n > 0 {
      assert cells[..n - 1] == GridCells(s, today, nofuture, n - 1);
      ClickableDatesNotFuture(s, today, nofuture, n - 1);
    }
  }
}
