/**
  The widget itself: the options fixed by `_init`, the bound input fields,
  the drop-down panel with its list of months, the scroll position, and the
  day markers whose `dr-inrange` class `_markRange` refreshes.
*/
module Picker {
  import opened Wrappers
  import opened Dates
  import opened Text
  import opened Formats
  import opened Selection
  import opened Grid

  /** The dates `_renderMonth` gives a marker, in the order it pushes them. */
  function MonthMarkers(m: ValidDate, today: ValidDate, nofuture: bool): seq<ValidDate> {
    var s := FloorMonth(m);
    ClickableDates(GridCells(s, today, nofuture, GridLength(s)))
  }

  /** The markers of a rendered month are the dates of its clickable cells. */
  lemma RenderedMarkers(m: ValidDate, today: ValidDate, nofuture: bool)
    ensures ClickableDates(RenderedMonth(m, today, nofuture).cells) == MonthMarkers(m, today, nofuture)
  {
    var s := FloorMonth(m);
    assert RenderedMonth(m, today, nofuture).cells == GridCells(s, today, nofuture, GridLength(s));
    assert MonthMarkers(m, today, nofuture) == ClickableDates(GridCells(s, today, nofuture, GridLength(s)));
  }

  /** No date in `ds` is after `today`. */
  predicate NotAfter(ds: seq<ValidDate>, today: ValidDate) {
    forall j :: 0 <= j < |ds| ==> LessEq(ds[j], today)
  }

  /** Under `nofuture`, no marker of a month is after today. */
  lemma MonthMarkersNotFuture(m: ValidDate, today: ValidDate, nofuture: bool)
    ensures nofuture ==> NotAfter(MonthMarkers(m, today, nofuture), today)
  {
    var s := FloorMonth(m);
    ClickableDatesNotFuture(s, today, nofuture, GridLength(s));
    assert MonthMarkers(m, today, nofuture) == ClickableDates(GridCells(s, today, nofuture, GridLength(s)));
  }

  /** The markers `show()` collects: it renders the listed months from the last one back. */
  function ShowMarkers(ms: seq<ValidDate>, today: ValidDate, nofuture: bool): seq<ValidDate>
    decreases |ms|
  {
    if |ms| == 0 then []
    else ShowMarkers(ms[1..], today, nofuture) + MonthMarkers(ms[0], today, nofuture)
  }

  lemma NotAfterAppend(a: seq<ValidDate>, b: seq<ValidDate>, today: ValidDate)
    requires NotAfter(a, today) && NotAfter(b, today)
    ensures NotAfter(a + b, today)
  {
    forall j | 0 <= j < |a + b|
      ensures LessEq((a + b)[j], today)
    {
      if j >= |a| {
        assert (a + b)[j] == b[j - |a|];
      }
    }
  }

  /** Under `nofuture`, no marker `show()` collects is after today. */
  lemma {:induction false} ShowMarkersNotFuture(ms: seq<ValidDate>, today: ValidDate, nofuture: bool)
    ensures nofuture ==> NotAfter(ShowMarkers(ms, today, nofuture), today)
    decreases |ms|
  {
    if |ms| > 0 && nofuture {
      var rest, mine := ShowMarkers(ms[1..], today, nofuture), MonthMarkers(ms[0], today, nofuture);
      ShowMarkersNotFuture(ms[1..], today, nofuture);
      MonthMarkersNotFuture(ms[0], today, nofuture);
      NotAfterAppend(rest, mine, today);
      assert ShowMarkers(ms, today, nofuture) == rest + mine;
    }
  }

  /** The rendered months, in list order. */
  function Views(ms: seq<ValidDate>, today: ValidDate, nofuture: bool): (vs: seq<MonthView>)
    ensures |vs| == |ms|
    decreases |ms|
  {
    if |ms| == 0 then [] else [RenderedMonth(ms[0], today, nofuture)] + Views(ms[1..], today, nofuture)
  }

  /** The `i`-th rendered month is the month `i` of the list. */
  lemma {:induction false} ViewsAt(ms: seq<ValidDate>, today: ValidDate, nofuture: bool, i: int)
    requires 0 <= i < |ms|
    ensures Views(ms, today, nofuture)[i] == RenderedMonth(ms[i], today, nofuture)
    decreases |ms|
  {
    if i > 0 {
      ViewsAt(ms[1..], today, nofuture, i - 1);
    }
  }

  /** `n` markers without the `dr-inrange` class. */
  function Unmarked(n: nat): (hs: seq<bool>)
    ensures |hs| == n && forall i :: 0 <= i < n ==> !hs[i]
  {
    if n == 0 then [] else Unmarked(n - 1) + [false]
  }

  /** One more unmarked marker. */
  lemma UnmarkedNext(n: nat)
    ensures Unmarked(n + 1) == Unmarked(n) + [false]
  {
    assert Unmarked(n + 1)[n] == false;
  }

  /** One more cell: the markers and their flags grow with its date when it is clickable. */
  lemma MarkedNext(markers0: seq<ValidDate>, highlighted0: seq<bool>, cells: seq<Cell>, c: Cell)
    ensures markers0 + ClickableDates(cells) + (if c.Clickable() then [c.date] else [])
      == markers0 + ClickableDates(cells + [c])
    ensures highlighted0 + Unmarked(|ClickableDates(cells)|) + (if c.Clickable() then [false] else [])
      == highlighted0 + Unmarked(|ClickableDates(cells + [c])|)
  {
    ClickableDatesSnoc(cells, c);
    UnmarkedNext(|ClickableDates(cells)|);
    var x: seq<ValidDate> := if c.Clickable() then [c.date] else [];
    var y: seq<bool> := if c.Clickable() then [false] else [];
    assert markers0 + ClickableDates(cells) + x == markers0 + (ClickableDates(cells) + x);
    assert highlighted0 + Unmarked(|ClickableDates(cells)|) + y == highlighted0 + (Unmarked(|ClickableDates(cells)|) + y);
  }

  /** Listing the month start `d` before the months that follow it extends the run of months back by one. */
  lemma MonthRangeCons(d: ValidDate, ms: seq<ValidDate>)
    requires IsMonthStart(d) && ms == MonthRange(NextMonth(d), |ms|)
    ensures [d] + ms == MonthRange(NextMonth(PrevMonth(d)), |ms| + 1)
  {
    var p := NextMonth(PrevMonth(d));
    MonthStartOfIndex(p);
    MonthStartOfIndex(d);
    MonthRangeSame(NextMonth(d), |ms|, NextMonth(p), |ms|);
  }

  /** Rendering the month `d` before the rendered months `ms` gives the views of `[d] + ms`. */
  lemma ViewsCons(d: ValidDate, ms: seq<ValidDate>, today: ValidDate, nofuture: bool, views0: seq<MonthView>)
    ensures [RenderedMonth(d, today, nofuture)] + (Views(ms, today, nofuture) + views0)
      == Views([d] + ms, today, nofuture) + views0
  {
    var v, vs := RenderedMonth(d, today, nofuture), Views(ms, today, nofuture);
    assert ([d] + ms)[0] == d && ([d] + ms)[1..] == ms;
    assert Views([d] + ms, today, nofuture) == [v] + vs;
    assert [v] + (vs + views0) == [v] + vs + views0;
  }

  /** The markers of `[d] + ms` are those of `ms` followed by those of `d`. */
  lemma ShowMarkersCons(d: ValidDate, ms: seq<ValidDate>, today: ValidDate, nofuture: bool)
    ensures ShowMarkers([d] + ms, today, nofuture) == ShowMarkers(ms, today, nofuture) + MonthMarkers(d, today, nofuture)
  {
    assert ([d] + ms)[1..] == ms;
  }

  /** The later of two days. */
  function Later(a: ValidDate, b: ValidDate): (c: ValidDate)
    ensures LessEq(a, c) && LessEq(b, c)
    ensures c == a || c == b
  {
    if Less(a, b) then b else a
  }

  /** No clickable cell of the rendered months holds a date after `h`. */
  predicate CalendarBy(vs: seq<MonthView>, h: ValidDate) {
    forall k :: 0 <= k < |vs| ==> ClickableBy(vs[k].cells, h)
  }

  /** A bound on the clickable cells holds for any later day too. */
  lemma ClickableByLater(cells: seq<Cell>, h: ValidDate, h': ValidDate)
    requires ClickableBy(cells, h) && LessEq(h, h')
    ensures ClickableBy(cells, h')
  {
    forall i | 0 <= i < |cells| && cells[i].Clickable()
      ensures LessEq(cells[i].date, h')
    {
      LessIsEarlier(cells[i].date, h);
      LessIsEarlier(h, h');
      LessIsEarlier(cells[i].date, h');
    }
  }

  /** A bound on the calendar holds for any later day too. */
  lemma CalendarByLater(vs: seq<MonthView>, h: ValidDate, h': ValidDate)
    requires CalendarBy(vs, h) && LessEq(h, h')
    ensures CalendarBy(vs, h')
  {
    forall k | 0 <= k < |vs|
      ensures ClickableBy(vs[k].cells, h')
    {
      ClickableByLater(vs[k].cells, h, h');
    }
  }

  /**
    Months rendered under `nofuture` on `today` have no clickable cell after
    today, so none after the later of today and any other day `h`.
  */
  lemma {:induction false} ViewsBy(ms: seq<ValidDate>, today: ValidDate, h: ValidDate)
    ensures CalendarBy(Views(ms, today, true), Later(h, today))
    decreases |ms|
  {
    if |ms| > 0 {
      var vs, rest := Views(ms, today, true), Views(ms[1..], today, true);
      ViewsBy(ms[1..], today, h);
      ClickableByLater(RenderedMonth(ms[0], today, true).cells, today, Later(h, today));
      forall k | 0 <= k < |vs|
        ensures ClickableBy(vs[k].cells, Later(h, today))
      {
        if k > 0 {
          assert vs[k] == rest[k - 1];
        }
      }
    }
  }

  /** Months rendered on `today` before a calendar bounded by `h` leave it bounded by the later of the two days. */
  lemma CalendarByViews(ms: seq<ValidDate>, today: ValidDate, vs: seq<MonthView>, h: ValidDate)
    requires CalendarBy(vs, h)
    ensures CalendarBy(Views(ms, today, true) + vs, Later(h, today))
  {
    var h', ws := Later(h, today), Views(ms, today, true);
    ViewsBy(ms, today, h);
    CalendarByLater(vs, h, h');
    forall k | 0 <= k < |ws + vs|
      ensures ClickableBy((ws + vs)[k].cells, h')
    {
      if k >= |ws| {
        assert (ws + vs)[k] == vs[k - |ws|];
      }
    }
  }

  /** A month rendered on `today` before or after a calendar bounded by `h` leaves it bounded by the later of the two days. */
  lemma CalendarByMonth(m: ValidDate, today: ValidDate, vs: seq<MonthView>, h: ValidDate)
    requires CalendarBy(vs, h)
    ensures var h', v := Later(h, today), RenderedMonth(m, today, true);
      CalendarBy(vs, h') && CalendarBy([v] + vs, h') && CalendarBy(vs + [v], h')
  {
    var h', v := Later(h, today), RenderedMonth(m, today, true);
    CalendarByLater(vs, h, h');
    ClickableByLater(v.cells, today, h');
    forall k | 0 <= k < |[v] + vs|
      ensures ClickableBy(([v] + vs)[k].cells, h')
    {
      if k > 0 {
        assert ([v] + vs)[k] == vs[k - 1];
      }
    }
    forall k | 0 <= k < |vs + [v]|
      ensures ClickableBy((vs + [v])[k].cells, h')
    {
      if k < |vs| {
        assert (vs + [v])[k] == vs[k];
      }
    }
  }

  /**
    The marker flags `_markRange` leaves: each marker is in range or not,
    where `firstMarker` is the marker whose cell's Date object is `first`.
  */
  predicate MarkedRange(markers: seq<ValidDate>, highlighted: seq<bool>, r: Range, firstMarker: Option<int>) {
    |highlighted| == |markers|
    && forall i :: 0 <= i < |markers| ==> highlighted[i] == InRange(markers[i], firstMarker == Some(i), r)
  }

  class DateRangePicker {
    /** The options as `_init` leaves them. */
    const format: Format
    const nmonths: int
    const nofuture: bool
    /** Whether a days field and an end field are bound. */
    const hasDays: bool
    const hasEnd: bool

    /** The values of the start, days and end fields, and whether they are disabled. */
    var startText: string
    var daysText: string
    var endText: string
    var disabled: bool

    /** Whether the panel is shown. */
    var panelVisible: bool

    var first: Option<ValidDate>
    var last: Option<ValidDate>
    /**
      The marker whose cell's Date object `first` is, if any: a click hands
      `first` its cell's own object, while `show()` builds a new one.
    */
    var firstMarker: Option<int>

    /** `self.months` (their dates), the month elements in the calendar, and `scrollIndex`. */
    var months: seq<ValidDate>
    var views: seq<MonthView>
    var scrollIndex: int

    /** The dates of `self.markers`, and whether each marker's cell has the `dr-inrange` class. */
    var markers: seq<ValidDate>
    var highlighted: seq<bool>

    /** Whether the right arrow is visible. */
    var rightVisible: bool

    /**
      The latest day the calendar was rendered on: with a clock that does not
      go back, today.  Any day will do while no month is rendered.
    */
    ghost var horizon: ValidDate

    /**
      What every handler relies on: the shape of the state, and under
      `nofuture` no clickable cell in the calendar after the day it was
      rendered on.
    */
    ghost predicate Valid()
      reads this`highlighted, this`markers, this`firstMarker, this`first, this`months, this`scrollIndex
      reads this`views, this`horizon
    {
      Shaped() && Bounded()
    }

    /** Under `nofuture`, no clickable cell of the calendar is after the day it was rendered on. */
    ghost predicate Bounded()
      reads this`views, this`horizon
    {
      nofuture ==> CalendarBy(views, horizon)
    }

    /**
      At least one month shown at a time, a flag per marker, and while months
      are listed, at least three consecutive ones with the scroll index on one
      of them.
    */
    predicate Shaped()
      reads this`highlighted, this`markers, this`firstMarker, this`first, this`months, this`scrollIndex
    {
      nmonths >= 1 && |highlighted| == |markers|
      && (firstMarker.Some? ==> first.Some? && 0 <= firstMarker.value < |markers| && markers[firstMarker.value] == first.value)
      && (|months| > 0 ==> |months| >= 3 && 0 <= scrollIndex < |months| && Consecutive(months) && first.Some?)
    }

    /** The range `show()` would derive from the fields now. */
    function FieldRange(today: ValidDate, jsParse: JsParser): Range
      reads this`startText, this`endText, this`daysText
    {
      InitialRange(startText, if hasEnd then Some(endText) else None, if hasDays then Some(daysText) else None,
                   format, jsParse, today)
    }

    /**
      `_init`: the format defaults to `iso`, a zero or absent month count to
      three, and `nofuture` to true; the panel starts closed.
    */
    constructor (format: Option<Format>, nmonths: nat, nofuture: Option<bool>, hasDays: bool, hasEnd: bool,
                 startText: string, daysText: string, endText: string)
      ensures this.format == format.GetOr(Iso)
      ensures this.nmonths == (if nmonths == 0 then 3 else nmonths)
      ensures this.nofuture == nofuture.GetOr(true)
      ensures this.hasDays == hasDays && this.hasEnd == hasEnd
      ensures this.startText == startText && this.daysText == daysText && this.endText == endText
      ensures !this.panelVisible && !this.disabled
      ensures first == None && last == None && firstMarker == None && months == [] && views == [] && markers == []
      ensures Valid()
    {
      this.format := format.GetOr(Iso);
      this.nmonths := if nmonths == 0 then 3 else nmonths;
      this.nofuture := nofuture.GetOr(true);
      this.hasDays := hasDays;
      this.hasEnd := hasEnd;
      this.startText := startText;
      this.daysText := daysText;
      this.endText := endText;
      disabled := false;
      panelVisible := false;
      first := None;
      last := None;
      firstMarker := None;
      months := [];
      views := [];
      scrollIndex := 0;
      markers := [];
      highlighted := [];
      rightVisible := true;
      horizon := Date(1970, 0, 1);
    }

    /**
      `makeDate`: a cell for `date`; unless it is a future date under
      `nofuture`, it gets a click handler and a marker.
    */
    method MakeCell(date: ValidDate, today: ValidDate) returns (c: Cell)
      modifies this`markers, this`highlighted
      ensures c == Cell(date, false, nofuture && Less(today, date), false)
      ensures markers == old(markers) + (if c.Clickable() then [date] else [])
      ensures highlighted == old(highlighted) + (if c.Clickable() then [false] else [])
    {
      if nofuture && Less(today, date) {
        return Cell(date, false, true, false);
      }
      markers := markers + [date];
      highlighted := highlighted + [false];
      c := Cell(date, false, false, false);
    }

    /**
      The first loop of `_renderMonth`: from the Sunday on or before the 1st,
      the overflow days up to the 1st of month `s`.
    */
    method RenderLead(s: ValidDate, today: ValidDate) returns (cells: seq<Cell>, d: ValidDate)
      requires IsMonthStart(s)
      modifies this`markers, this`highlighted
      ensures cells == GridCells(s, today, nofuture, Lead(s)) && d == s
      ensures markers == old(markers) + ClickableDates(cells)
      ensures highlighted == old(highlighted) + Unmarked(|ClickableDates(cells)|)
    {
      d := AddDays(s, -Weekday(s));
      cells := [];
      ghost var i := 0;
      AddDaysSame(s, -Weekday(s), 0 - Lead(s));
      while d.month != s.month
        invariant 0 <= i <= Lead(s) && d == CellDate(s, i) && cells == GridCells(s, today, nofuture, i)
        invariant markers == old(markers) + ClickableDates(cells)
        invariant highlighted == old(highlighted) + Unmarked(|ClickableDates(cells)|)
        decreases Lead(s) - i
      {
        LeadCell(s, today, nofuture, i);
        cells, d, i := LeadStep(s, today, i, cells, d, old(markers), old(highlighted));
      }
      LeadCell(s, today, nofuture, i);
    }

    /** One pass of the first loop: the overflow cell for `d`, then the next day. */
    method LeadStep(s: ValidDate, today: ValidDate, ghost i: int, cells0: seq<Cell>, d0: ValidDate,
                    ghost markers0: seq<ValidDate>, ghost highlighted0: seq<bool>)
      returns (cells: seq<Cell>, d: ValidDate, ghost j: int)
      requires IsMonthStart(s) && 0 <= i < Lead(s)
      requires d0 == CellDate(s, i) && cells0 == GridCells(s, today, nofuture, i)
      requires markers == markers0 + ClickableDates(cells0)
      requires highlighted == highlighted0 + Unmarked(|ClickableDates(cells0)|)
      modifies this`markers, this`highlighted
      ensures j == i + 1 && d == CellDate(s, j) && cells == GridCells(s, today, nofuture, j)
      ensures markers == markers0 + ClickableDates(cells)
      ensures highlighted == highlighted0 + Unmarked(|ClickableDates(cells)|)
    {
      LeadCell(s, today, nofuture, i);
      var c := MakeCell(d0, today);
      c := c.(overflow := true);
      GridCellsNext(s, today, nofuture, i);
      MarkedNext(markers0, highlighted0, cells0, c);
      cells := cells0 + [c];
      CellDateNext(s, i);
      d, j := NextDay(d0), i + 1;
    }

    /**
      The second loop of `_renderMonth`: the days of month `s`, the one whose
      day is `todaysDate` marked today.
    */
    method RenderDays(s: ValidDate, today: ValidDate, todaysDate: int, cells0: seq<Cell>,
                      ghost markers0: seq<ValidDate>, ghost highlighted0: seq<bool>)
      returns (cells: seq<Cell>, d: ValidDate)
      requires IsMonthStart(s) && cells0 == GridCells(s, today, nofuture, Lead(s))
      requires todaysDate == if today.year == s.year && today.month == s.month then today.day else 0
      requires markers == markers0 + ClickableDates(cells0)
      requires highlighted == highlighted0 + Unmarked(|ClickableDates(cells0)|)
      modifies this`markers, this`highlighted
      ensures cells == GridCells(s, today, nofuture, Lead(s) + MonthLength(s.year, s.month))
      ensures d == CellDate(s, Lead(s) + MonthLength(s.year, s.month))
      ensures markers == markers0 + ClickableDates(cells)
      ensures highlighted == highlighted0 + Unmarked(|ClickableDates(cells)|)
    {
      d, cells := s, cells0;
      ghost var i := Lead(s);
      LeadCell(s, today, nofuture, i);
      while d.month == s.month
        invariant Lead(s) <= i <= Lead(s) + MonthLength(s.year, s.month)
        invariant d == CellDate(s, i) && cells == GridCells(s, today, nofuture, i)
        invariant markers == markers0 + ClickableDates(cells)
        invariant highlighted == highlighted0 + Unmarked(|ClickableDates(cells)|)
        decreases Lead(s) + MonthLength(s.year, s.month) - i
      {
        DayCell(s, today, nofuture, todaysDate, i);
        cells, d, i := DayStep(s, today, todaysDate, i, cells, d, markers0, highlighted0);
      }
      DayCell(s, today, nofuture, todaysDate, i);
    }

    /** One pass of the second loop: the cell for the day `d` of month `s`, then the next day. */
    method DayStep(s: ValidDate, today: ValidDate, todaysDate: int, ghost i: int, cells0: seq<Cell>, d0: ValidDate,
                   ghost markers0: seq<ValidDate>, ghost highlighted0: seq<bool>)
      returns (cells: seq<Cell>, d: ValidDate, ghost j: int)
      requires IsMonthStart(s) && Lead(s) <= i < Lead(s) + MonthLength(s.year, s.month)
      requires todaysDate == if today.year == s.year && today.month == s.month then today.day else 0
      requires d0 == CellDate(s, i) && cells0 == GridCells(s, today, nofuture, i)
      requires markers == markers0 + ClickableDates(cells0)
      requires highlighted == highlighted0 + Unmarked(|ClickableDates(cells0)|)
      modifies this`markers, this`highlighted
      ensures j == i + 1 && d == CellDate(s, j) && cells == GridCells(s, today, nofuture, j)
      ensures markers == markers0 + ClickableDates(cells)
      ensures highlighted == highlighted0 + Unmarked(|ClickableDates(cells)|)
    {
      DayCell(s, today, nofuture, todaysDate, i);
      var c := MakeCell(d0, today);
      c := c.(today := d0.day == todaysDate);
      GridCellsNext(s, today, nofuture, i);
      MarkedNext(markers0, highlighted0, cells0, c);
      cells := cells0 + [c];
      CellDateNext(s, i);
      d, j := NextDay(d0), i + 1;
    }

    /** The third loop of `_renderMonth`: overflow days up to the next Sunday. */
    method RenderTrail(s: ValidDate, today: ValidDate, cells0: seq<Cell>, d0: ValidDate,
                       ghost markers0: seq<ValidDate>, ghost highlighted0: seq<bool>)
      returns (cells: seq<Cell>)
      requires IsMonthStart(s) && cells0 == GridCells(s, today, nofuture, Lead(s) + MonthLength(s.year, s.month))
      requires d0 == CellDate(s, Lead(s) + MonthLength(s.year, s.month))
      requires markers == markers0 + ClickableDates(cells0)
      requires highlighted == highlighted0 + Unmarked(|ClickableDates(cells0)|)
      modifies this`markers, this`highlighted
      ensures cells == GridCells(s, today, nofuture, GridLength(s))
      ensures markers == markers0 + ClickableDates(cells)
      ensures highlighted == highlighted0 + Unmarked(|ClickableDates(cells)|)
    {
      var d := d0;
      cells := cells0;
      ghost var i := Lead(s) + MonthLength(s.year, s.month);
      while Weekday(d) != 0
        invariant Lead(s) + MonthLength(s.year, s.month) <= i <= GridLength(s)
        invariant d == CellDate(s, i) && cells == GridCells(s, today, nofuture, i)
        invariant markers == markers0 + ClickableDates(cells)
        invariant highlighted == highlighted0 + Unmarked(|ClickableDates(cells)|)
        decreases GridLength(s) - i
      {
        TrailCell(s, today, nofuture, i);
        cells, d, i := TrailStep(s, today, i, cells, d, markers0, highlighted0);
      }
      TrailCell(s, today, nofuture, i);
    }

    /** One pass of the third loop: the overflow cell for `d`, then the next day. */
    method TrailStep(s: ValidDate, today: ValidDate, ghost i: int, cells0: seq<Cell>, d0: ValidDate,
                     ghost markers0: seq<ValidDate>, ghost highlighted0: seq<bool>)
      returns (cells: seq<Cell>, d: ValidDate, ghost j: int)
      requires IsMonthStart(s) && Lead(s) + MonthLength(s.year, s.month) <= i < GridLength(s)
      requires d0 == CellDate(s, i) && cells0 == GridCells(s, today, nofuture, i)
      requires markers == markers0 + ClickableDates(cells0)
      requires highlighted == highlighted0 + Unmarked(|ClickableDates(cells0)|)
      modifies this`markers, this`highlighted
      ensures j == i + 1 && d == CellDate(s, j) && cells == GridCells(s, today, nofuture, j)
      ensures markers == markers0 + ClickableDates(cells)
      ensures highlighted == highlighted0 + Unmarked(|ClickableDates(cells)|)
    {
      TrailCell(s, today, nofuture, i);
      var c := MakeCell(d0, today);
      c := c.(overflow := true);
      GridCellsNext(s, today, nofuture, i);
      MarkedNext(markers0, highlighted0, cells0, c);
      cells := cells0 + [c];
      CellDateNext(s, i);
      d, j := NextDay(d0), i + 1;
    }

    /**
      `_renderMonth(d0)`: from the Sunday on or before the 1st, the overflow
      days up to the 1st, the month's days (today's marked), then overflow
      days up to the next Sunday.
    */
    method RenderMonth(d0: ValidDate, today: ValidDate) returns (view: MonthView)
      modifies this`markers, this`highlighted
      ensures view == RenderedMonth(d0, today, nofuture)
      ensures markers == old(markers) + MonthMarkers(d0, today, nofuture)
      ensures highlighted == old(highlighted) + Unmarked(|MonthMarkers(d0, today, nofuture)|)
    {
      var s := FloorMonth(d0);
      var todaysDate := if today.year == d0.year && today.month == d0.month then today.day else 0;
      var title := Title(s);
      var cells, d := RenderLead(s, today);
      cells, d := RenderDays(s, today, todaysDate, cells, old(markers), old(highlighted));
      cells := RenderTrail(s, today, cells, d, old(markers), old(highlighted));
      view := MonthView(title, cells);
      RenderedMarkers(d0, today, nofuture);
    }

    /** Render the month of `d` and put it before the listed months. */
    method Prepend(d: ValidDate, today: ValidDate)
      modifies this`months, this`views, this`markers, this`highlighted
      ensures months == [d] + old(months) && views == [RenderedMonth(d, today, nofuture)] + old(views)
      ensures markers == old(markers) + MonthMarkers(d, today, nofuture)
      ensures highlighted == old(highlighted) + Unmarked(|MonthMarkers(d, today, nofuture)|)
    {
      var view := RenderMonth(d, today);
      views := [view] + views;
      months := [d] + months;
    }

    /** Render the month before the first listed one (`setMonth(getMonth() - 1)`) and put it first. */
    method PrependPrevious(today: ValidDate)
      requires |months| > 0 && Consecutive(months)
      modifies this`months, this`views, this`markers, this`highlighted
      ensures var m := PrevMonth(old(months)[0]);
        months == [m] + old(months) && views == [RenderedMonth(m, today, nofuture)] + old(views)
        && markers == old(markers) + MonthMarkers(m, today, nofuture)
        && highlighted == old(highlighted) + Unmarked(|MonthMarkers(m, today, nofuture)|)
      ensures Consecutive(months)
    {
      var d := AddMonths(months[0], -1);
      AddMonthsStep(months[0]);
      ConsecutivePrepend(months);
      Prepend(d, today);
    }

    /** Render the month after the last listed one (`setMonth(getMonth() + 1)`) and put it last. */
    method AppendNext(today: ValidDate)
      requires |months| > 0 && Consecutive(months)
      modifies this`months, this`views, this`markers, this`highlighted
      ensures var m := NextMonth(old(months)[|old(months)| - 1]);
        months == old(months) + [m] && views == old(views) + [RenderedMonth(m, today, nofuture)]
        && markers == old(markers) + MonthMarkers(m, today, nofuture)
        && highlighted == old(highlighted) + Unmarked(|MonthMarkers(m, today, nofuture)|)
      ensures Consecutive(months)
    {
      var d := AddMonths(months[|months| - 1], 1);
      AddMonthsStep(months[|months| - 1]);
      ConsecutiveAppend(months);
      var view := RenderMonth(d, today);
      views := views + [view];
      months := months + [d];
    }

    /** `_markRange`: every marker sets or clears `dr-inrange` by the current range. */
    method MarkRange()
      requires first.Some?
      modifies this`highlighted
      ensures MarkedRange(markers, highlighted, Range(first.value, last), firstMarker)
      ensures old(Shaped()) ==> Shaped()
    {
      var r := Range(first.value, last);
      var hs: seq<bool> := [];
      for i := 0 to |markers|
        invariant |hs| == i && forall j :: 0 <= j < i ==> hs[j] == InRange(markers[j], firstMarker == Some(j), r)
      {
        hs := hs + [InRange(markers[i], firstMarker == Some(i), r)];
      }
      highlighted := hs;
    }

    /** `_setScroll`: under `nofuture`, the right arrow is hidden when the month after the last visible one is still to come. */
    method SetScroll(today: ValidDate)
      requires Shaped() && |months| > 0
      modifies this`rightVisible
      ensures rightVisible == if nofuture then !ShowsToday(months, scrollIndex, nmonths, today) else old(rightVisible)
    {
      if nofuture {
        rightVisible := !RightArrowHidden(months, scrollIndex, nmonths, today);
      }
    }

    /**
      `show()`: derive the range from the fields, then list, render and mark
      the months as `ShowRange` does.
    */
    method Show(today: ValidDate, jsParse: JsParser)
      requires Valid()
      modifies this`first, this`last, this`firstMarker, this`months, this`views, this`markers, this`highlighted
      modifies this`scrollIndex, this`rightVisible, this`disabled, this`panelVisible, this`horizon
      ensures var r := old(FieldRange(today, jsParse));
        first == Some(r.first) && last == r.last && r.last.Some?
        && months == InitialMonths(r.first, r.last.value)
      ensures views == Views(months, today, nofuture) + old(views)
      ensures markers == ShowMarkers(months, today, nofuture)
      ensures firstMarker == None && MarkedRange(markers, highlighted, Range(first.value, last), None)
      ensures scrollIndex == |months| - 3
      ensures rightVisible == if nofuture then !ShowsToday(months, scrollIndex, nmonths, today) else old(rightVisible)
      ensures panelVisible && disabled && horizon == Later(old(horizon), today)
      ensures Valid()
    {
      var r := FieldRange(today, jsParse);
      ghost var views0, h0 := views, horizon;
      ShowRange(today, r);
      horizon := Later(horizon, today);
      if nofuture {
        CalendarByViews(months, today, views0, h0);
      }
    }

    /**
      The rest of `show()` once the range `r` is derived: list and render the
      months from the month of its last date back, mark the range, scroll to
      the last three months, and disable the fields.
    */
    method ShowRange(today: ValidDate, r: Range)
      requires nmonths >= 1 && r.last.Some?
      modifies this`first, this`last, this`firstMarker, this`months, this`views, this`markers, this`highlighted
      modifies this`scrollIndex, this`rightVisible, this`disabled, this`panelVisible
      ensures first == Some(r.first) && last == r.last && months == InitialMonths(r.first, r.last.value)
      ensures views == Views(months, today, nofuture) + old(views)
      ensures markers == ShowMarkers(months, today, nofuture)
      ensures firstMarker == None && MarkedRange(markers, highlighted, Range(first.value, last), None)
      ensures scrollIndex == |months| - 3
      ensures rightVisible == if nofuture then !ShowsToday(months, scrollIndex, nmonths, today) else old(rightVisible)
      ensures panelVisible && disabled
      ensures Shaped()
    {
      ListMonths(today, r.first, r.last.value);
      Present(today, r);
    }

    /**
      The end of `show()` once the months are listed: take `r` as the range,
      mark it, scroll to the last three months, and disable the fields.
    */
    method Present(today: ValidDate, r: Range)
      requires nmonths >= 1 && |months| >= 3 && Consecutive(months) && |highlighted| == |markers|
      modifies this`first, this`last, this`firstMarker
      modifies this`highlighted, this`scrollIndex, this`rightVisible, this`disabled, this`panelVisible
      ensures first == Some(r.first) && last == r.last
      ensures firstMarker == None && MarkedRange(markers, highlighted, r, None)
      ensures scrollIndex == |months| - 3
      ensures rightVisible == if nofuture then !ShowsToday(months, scrollIndex, nmonths, today) else old(rightVisible)
      ensures panelVisible && disabled
      ensures Shaped()
    {
      first, last, firstMarker := Some(r.first), r.last, None;
      MarkRange();
      scrollIndex := |months| - 3;
      SetScroll(today);
      disabled, panelVisible := true, true;
    }

    /**
      The month list of `show()`: from the month of `lastDate` back, render
      each month before the ones listed so far, while its start is not before
      `firstDate` or fewer than three months are listed.
    */
    method ListMonths(today: ValidDate, firstDate: ValidDate, lastDate: ValidDate)
      modifies this`months, this`views, this`markers, this`highlighted
      ensures months == InitialMonths(firstDate, lastDate)
      ensures views == Views(months, today, nofuture) + old(views)
      ensures markers == ShowMarkers(months, today, nofuture) && |highlighted| == |markers|
    {
      markers := [];
      highlighted := [];
      months := [];
      var d: ValidDate := FloorMonth(lastDate);
      var hi, lo := MonthIndex(lastDate), LowMonth(firstDate, lastDate);
      ghost var views0, n := views, 0;
      MonthStartNotBefore(d, firstDate);
      while !Less(d, firstDate) || |months| < 3
        invariant IsMonthStart(d) && lo - 1 <= MonthIndex(d) <= hi && n == hi - MonthIndex(d)
        invariant months == MonthRange(NextMonth(d), n)
        invariant views == Views(months, today, nofuture) + views0
        invariant markers == ShowMarkers(months, today, nofuture) && |highlighted| == |markers|
        invariant !Less(d, firstDate) <==> MonthIndex(d) >= FirstMonthFrom(firstDate)
        decreases MonthIndex(d) - lo
      {
        ListBefore(d, n, today, views0);
        AddMonthsStep(d);
        d, n := AddMonths(d, -1), n + 1;
        MonthStartNotBefore(d, firstDate);
      }
      assert MonthIndex(NextMonth(d)) == lo;
      InitialMonthsFrom(firstDate, lastDate, NextMonth(d), n);
    }

    /** Render the month of `d` and list it before the `n` months that follow it. */
    method ListBefore(d: ValidDate, ghost n: nat, today: ValidDate, ghost views0: seq<MonthView>)
      requires IsMonthStart(d) && months == MonthRange(NextMonth(d), n)
      requires views == Views(months, today, nofuture) + views0
      requires markers == ShowMarkers(months, today, nofuture) && |highlighted| == |markers|
      modifies this`months, this`views, this`markers, this`highlighted
      ensures months == MonthRange(NextMonth(PrevMonth(d)), n + 1)
      ensures views == Views(months, today, nofuture) + views0
      ensures markers == ShowMarkers(months, today, nofuture) && |highlighted| == |markers|
    {
      MonthRangeCons(d, months);
      ViewsCons(d, months, today, nofuture, views0);
      ShowMarkersCons(d, months, today, nofuture);
      Prepend(d, today);
    }

    /** `hide()`: hide the panel, empty the calendar, the markers and the month list, and enable the fields. */
    method Hide()
      requires Valid()
      modifies this`panelVisible, this`views, this`markers, this`highlighted, this`months, this`disabled
      modifies this`firstMarker
      ensures !panelVisible && views == [] && markers == [] && highlighted == [] && months == [] && !disabled
      ensures firstMarker == None
      ensures Valid()
    {
      panelVisible := false;
      firstMarker := None;
      views := [];
      markers := [];
      highlighted := [];
      months := [];
      disabled := false;
    }

    /**
      The drop-down's click handler: hide when `open`, show otherwise, and
      flip `open`.  `open` is a variable of `_init` that this handler and the
      close button's share; it is passed in and the new value returned.
    */
    method ToggleDropDown(open: bool, today: ValidDate, jsParse: JsParser) returns (nowOpen: bool)
      requires Valid()
      modifies this`first, this`last, this`firstMarker, this`months, this`views, this`markers, this`highlighted
      modifies this`scrollIndex, this`rightVisible, this`disabled, this`panelVisible, this`horizon
      ensures nowOpen == !open
      ensures open ==>
        !panelVisible && views == [] && markers == [] && highlighted == [] && months == [] && !disabled
        && firstMarker == None && first == old(first) && last == old(last) && scrollIndex == old(scrollIndex)
        && rightVisible == old(rightVisible) && horizon == old(horizon)
      ensures !open ==> var r := old(FieldRange(today, jsParse));
        first == Some(r.first) && last == r.last && r.last.Some? && months == InitialMonths(r.first, r.last.value)
        && views == Views(months, today, nofuture) + old(views)
        && markers == ShowMarkers(months, today, nofuture)
        && firstMarker == None && MarkedRange(markers, highlighted, Range(first.value, last), None)
        && scrollIndex == |months| - 3
        && rightVisible == (if nofuture then !ShowsToday(months, scrollIndex, nmonths, today) else old(rightVisible))
        && panelVisible && disabled && horizon == Later(old(horizon), today)
      ensures Valid()
    {
      if open {
        Hide();
      } else {
        Show(today, jsParse);
      }
      nowOpen := !open;
    }

    /** The close button's click handler: hide, and set `_init`'s `open` to false (returned). */
    method Close() returns (open: bool)
      requires Valid()
      modifies this`panelVisible, this`views, this`markers, this`highlighted, this`months, this`disabled
      modifies this`firstMarker
      ensures !open && !panelVisible && views == [] && markers == [] && highlighted == [] && months == [] && !disabled
      ensures firstMarker == None
      ensures Valid()
    {
      Hide();
      open := false;
    }

    /**
      The left arrow's click handler: step the scroll index back, and when it
      falls below 0, render and prepend the month before the first one.
    */
    method ScrollLeft(today: ValidDate)
      requires Valid() && |months| > 0
      modifies this`scrollIndex, this`months, this`views, this`markers, this`highlighted, this`rightVisible
      modifies this`horizon
      ensures old(scrollIndex) > 0 ==>
        scrollIndex == old(scrollIndex) - 1 && months == old(months) && views == old(views)
        && markers == old(markers) && highlighted == old(highlighted)
      ensures old(scrollIndex) <= 0 ==>
        var m := PrevMonth(old(months)[0]);
        scrollIndex == 0 && months == [m] + old(months)
        && views == [RenderedMonth(m, today, nofuture)] + old(views)
        && markers == old(markers) + MonthMarkers(m, today, nofuture)
        && highlighted == old(highlighted) + Unmarked(|MonthMarkers(m, today, nofuture)|)
      ensures rightVisible == if nofuture then !ShowsToday(months, scrollIndex, nmonths, today) else old(rightVisible)
      ensures horizon == Later(old(horizon), today)
      ensures Valid()
    {
      if nofuture {
        CalendarByMonth(PrevMonth(months[0]), today, views, horizon);
      }
      StepLeft(today);
      horizon := Later(horizon, today);
      assert Bounded();
      SetScroll(today);
    }

    /** The index step of the left arrow, and the month it renders and prepends when the index falls below 0. */
    method StepLeft(today: ValidDate)
      requires Shaped() && |months| > 0
      modifies this`scrollIndex, this`months, this`views, this`markers, this`highlighted
      ensures old(scrollIndex) > 0 ==>
        scrollIndex == old(scrollIndex) - 1 && months == old(months) && views == old(views)
        && markers == old(markers) && highlighted == old(highlighted)
      ensures old(scrollIndex) <= 0 ==>
        var m := PrevMonth(old(months)[0]);
        scrollIndex == 0 && months == [m] + old(months)
        && views == [RenderedMonth(m, today, nofuture)] + old(views)
        && markers == old(markers) + MonthMarkers(m, today, nofuture)
        && highlighted == old(highlighted) + Unmarked(|MonthMarkers(m, today, nofuture)|)
      ensures Shaped()
    {
      scrollIndex := scrollIndex - 1;
      if scrollIndex < 0 {
        PrependPrevious(today);
        scrollIndex := 0;
      }
    }

    /**
      The right arrow's click handler: step the scroll index on, and when it
      reaches `nmonths` months from the end, render and append the month after
      the last one.
    */
    method ScrollRight(today: ValidDate)
      requires Valid() && |months| > 0
      modifies this`scrollIndex, this`months, this`views, this`markers, this`highlighted, this`rightVisible
      modifies this`horizon
      ensures scrollIndex == old(scrollIndex) + 1
      ensures old(scrollIndex) + 1 < |old(months)| - nmonths ==>
        months == old(months) && views == old(views)
        && markers == old(markers) && highlighted == old(highlighted)
      ensures old(scrollIndex) + 1 >= |old(months)| - nmonths ==>
        var m := NextMonth(old(months)[|old(months)| - 1]);
        months == old(months) + [m]
        && views == old(views) + [RenderedMonth(m, today, nofuture)]
        && markers == old(markers) + MonthMarkers(m, today, nofuture)
        && highlighted == old(highlighted) + Unmarked(|MonthMarkers(m, today, nofuture)|)
      ensures rightVisible == if nofuture then !ShowsToday(months, scrollIndex, nmonths, today) else old(rightVisible)
      ensures horizon == Later(old(horizon), today)
      ensures Valid()
    {
      if nofuture {
        CalendarByMonth(NextMonth(months[|months| - 1]), today, views, horizon);
      }
      StepRight(today);
      horizon := Later(horizon, today);
      assert Bounded();
      SetScroll(today);
    }

    /** The index step of the right arrow, and the month it renders and appends when the index nears the end. */
    method StepRight(today: ValidDate)
      requires Shaped() && |months| > 0
      modifies this`scrollIndex, this`months, this`views, this`markers, this`highlighted
      ensures scrollIndex == old(scrollIndex) + 1
      ensures old(scrollIndex) + 1 < |old(months)| - nmonths ==>
        months == old(months) && views == old(views)
        && markers == old(markers) && highlighted == old(highlighted)
      ensures old(scrollIndex) + 1 >= |old(months)| - nmonths ==>
        var m := NextMonth(old(months)[|old(months)| - 1]);
        months == old(months) + [m]
        && views == old(views) + [RenderedMonth(m, today, nofuture)]
        && markers == old(markers) + MonthMarkers(m, today, nofuture)
        && highlighted == old(highlighted) + Unmarked(|MonthMarkers(m, today, nofuture)|)
      ensures Shaped()
    {
      scrollIndex := scrollIndex + 1;
      if scrollIndex >= |months| - nmonths {
        AppendNext(today);
      }
    }

    /**
      A day cell's click handler: move `first` and `last`, write the start
      field, the days field and the end field (those that are bound), and
      re-mark the range.  `cell` is the cell's marker, if it still has one;
      when the click moves `first`, `first` becomes that cell's Date object.
    */
    method OnDayClick(date: ValidDate, cell: Option<int>, jsFormat: JsFormatter)
      requires Valid() && first.Some? && OnCalendar(date)
      requires cell.Some? ==> 0 <= cell.value < |markers| && markers[cell.value] == date
      modifies this`first, this`last, this`firstMarker, this`startText, this`daysText, this`endText, this`highlighted
      ensures first.Some?
      ensures Range(first.value, last) == OnClick(Range(old(first).value, old(last)), date)
      ensures firstMarker == if old(last).Some? || Less(date, old(first).value) then cell else old(firstMarker)
      ensures var fv := FieldValues(Range(first.value, last), format, jsFormat);
        startText == fv.start
        && daysText == (if hasDays then fv.days else old(daysText))
        && endText == (if hasEnd then fv.end else old(endText))
      ensures MarkedRange(markers, highlighted, Range(first.value, last), firstMarker)
      ensures cell.Some? ==> highlighted[cell.value]
      ensures nofuture ==> LessEq(date, horizon)
      ensures Valid()
    {
      Choose(date, cell);
      Refresh(Range(first.value, last), cell, jsFormat);
      assert Bounded();
    }

    /**
      The second part of the click handler, for the new range `r`: write the
      fields and re-mark the range; the clicked cell's marker `cell` ends up
      highlighted when its date is in `r`.
    */
    method Refresh(r: Range, cell: Option<int>, jsFormat: JsFormatter)
      requires Shaped() && first.Some? && r == Range(first.value, last)
      requires cell.Some? ==> 0 <= cell.value < |markers| && InRange(markers[cell.value], firstMarker == cell, r)
      modifies this`startText, this`daysText, this`endText, this`highlighted
      ensures var fv := FieldValues(r, format, jsFormat);
        startText == fv.start
        && daysText == (if hasDays then fv.days else old(daysText))
        && endText == (if hasEnd then fv.end else old(endText))
      ensures MarkedRange(markers, highlighted, r, firstMarker)
      ensures cell.Some? ==> highlighted[cell.value]
      ensures Shaped()
    {
      WriteFields(r, jsFormat);
      Remark(r, cell);
    }

    /** `_markRange()` after a click, for the range `r`: the clicked cell's marker `cell` ends up highlighted when its date is in `r`. */
    method Remark(r: Range, cell: Option<int>)
      requires Shaped() && first.Some? && r == Range(first.value, last)
      requires cell.Some? ==> 0 <= cell.value < |markers| && InRange(markers[cell.value], firstMarker == cell, r)
      modifies this`highlighted
      ensures MarkedRange(markers, highlighted, r, firstMarker)
      ensures cell.Some? ==> highlighted[cell.value]
      ensures Shaped()
    {
      MarkRange();
    }

    /** `date` is the date of a clickable cell of the calendar: one with a click handler. */
    predicate OnCalendar(date: ValidDate)
      reads this`views
    {
      exists i, j :: 0 <= i < |views| && 0 <= j < |views[i].cells|
        && views[i].cells[j].date == date && views[i].cells[j].Clickable()
    }

    /** The first part of the click handler: move `first` and `last`. */
    method Choose(date: ValidDate, cell: Option<int>)
      requires Valid() && first.Some? && OnCalendar(date)
      requires cell.Some? ==> 0 <= cell.value < |markers| && markers[cell.value] == date
      modifies this`first, this`last, this`firstMarker
      ensures first.Some?
      ensures Range(first.value, last) == OnClick(Range(old(first).value, old(last)), date)
      ensures firstMarker == if old(last).Some? || Less(date, old(first).value) then cell else old(firstMarker)
      ensures cell.Some? ==> InRange(date, firstMarker == cell, Range(first.value, last))
      ensures nofuture ==> LessEq(date, horizon)
      ensures Valid()
    {
      if last.Some? {
        first, firstMarker := Some(date), cell;
        last := None;
      } else if Less(date, first.value) {
        last := first;
        first, firstMarker := Some(date), cell;
      } else {
        last := Some(date);
      }
    }

    /** The click handler's writes for the range `r`: the start field, and the days and end fields when bound. */
    method WriteFields(r: Range, jsFormat: JsFormatter)
      modifies this`startText, this`daysText, this`endText
      ensures var fv := FieldValues(r, format, jsFormat);
        startText == fv.start
        && daysText == (if hasDays then fv.days else old(daysText))
        && endText == (if hasEnd then fv.end else old(endText))
    {
      var fv := FieldValues(r, format, jsFormat);
      startText := fv.start;
      if hasDays {
        daysText := fv.days;
      }
      if hasEnd {
        endText := fv.end;
      }
    }
  }
}
