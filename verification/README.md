# A Dafny model of the jQuery date-range picker

`ui.daterange.js` is a jQuery UI widget. It attaches a drop-down calendar to a
start-date input. The calendar can also fill a "days" input and an "end"
input. This project models the widget's logic and proves properties of it.

What the model covers:

- **Dates.** The host's Date arithmetic is modelled as calendar dates at
  local midnight (`Dates`). The module defines:
  - a day number counted from 1970-01-01 (days_from_civil), and its inverse;
  - the ECMAScript normalisation behind `new Date(y, m, d)`, `setDate` and
    `setMonth`;
  - weekdays (`getDay`);
  - `floorMonth`.
- **Formats.** The two date formats (`Formats`):
  - `iso` is modelled exactly, except for the `Number` syntaxes listed under
    "Left out". This includes `split("-")`, `Number` on the parts, `zpad`,
    the two-digit-year rule of `new Date(y, m, d)` and the TimeClip limit.
  - The host's `new Date(s)` and `toLocaleDateString()` are parameters: total
    tables `JsParser` and `JsFormatter`.
  - `parseDate` with its preferred parser and its fallback loop.
- **Selection logic** (`Selection`):
  - the click state machine on `first` and `last`;
  - the days count;
  - the `dr-inrange` test;
  - the range `show()` derives from the three fields;
  - the list of months `show()` renders;
  - the right-arrow rule of `_setScroll`.
- **Month grid** (`Grid`): the cells `_renderMonth` draws. The grid runs from
  the Sunday on or before the 1st to the Saturday on or after the last day. Each
  cell carries its overflow, future and today flags.
- **The widget** (`Picker.DateRangePicker`): a class whose fields are the
  widget's state. The fields hold:
  - the options fixed by `_init`;
  - the field values;
  - `first` and `last`;
  - the month list and the rendered months;
  - `scrollIndex`;
  - `markers` and their `dr-inrange` flags;
  - the panel flag;
  - a ghost field `horizon`, the latest day the calendar was rendered on.

  Every handler is a method with a `modifies` frame:
  - the arrows, the drop-down and the close button;
  - `show` and `hide`;
  - `_renderMonth`, with its three loops as `while` loops;
  - `_markRange`;
  - `_setScroll`;
  - the day-cell click.

  Each method is proved against the specification functions of the other
  modules.

The in-range test at `ui.daterange.js:276` is `self.first == date || ...`.
Its `==` compares two Date objects by identity, not by value. A click makes
`first` the clicked cell's own Date object. `show()` makes `first` a fresh
object that no cell holds. The class therefore records in `firstMarker` which
marker, if any, holds `first`. `InRange` takes that fact as its `isFirst`
argument. The consequences are proved:
- After `show()`, an inverted range read from the fields (start after end)
  marks no cell (`InRangeInverted`).
- While a range is half chosen, only the clicked cell is marked, not the cell
  for the same day in a neighbouring month's overflow (`InRangeSpan`).

The current day is a parameter (`today`) of every operation that reads the
clock. Under `nofuture` the class keeps as an invariant that no clickable
cell of the calendar is after `horizon`, the latest of the days it was
rendered on. With a clock that does not go back, `horizon` is today, so a
click never selects a future date (`Choose`, `OnDayClick`).

The drop-down's `open` flag is a local variable of `_init` that the
drop-down's and the close button's handlers share. It is not a widget
field, so `ToggleDropDown` and `Close` take it and return its new value.

## Model

| member | source | states |
|---|---|---|
| Dates.LessIsEarlier | ui.daterange.js:254-257 | Comparing two dates with `<` (their time values) is the same as comparing them field by field; equal day numbers mean equal dates |
| Dates.LessDayNumber | ui.daterange.js:276 | A date earlier in the calendar has the smaller day number |
| Dates.DayNumberInYear | ui.daterange.js:316 | Every date's day number lies between its year's start and the next year's start |
| Dates.YearStartMonotone | ui.daterange.js:316 | A later year starts at least a whole year after an earlier one |
| Dates.YearStartBound | ui.daterange.js:316 | A year's first day lies between 365 and 366 days per year away from 1970 |
| Dates.MonthStep | ui.daterange.js:222 | Each month starts where the previous one ends, and the twelve months make up the year |
| Dates.DaysBeforeMonthMonotone | ui.daterange.js:222 | Each month adds at least 28 days to the days before it |
| Dates.MonthLength | ui.daterange.js:225 | A month has 28 to 31 days |
| Dates.NextDay | ui.daterange.js:222 | The day after a valid date is a valid date |
| Dates.NextDayNumber | ui.daterange.js:222 | `setDate(getDate() + 1)` moves exactly one day number on |
| Dates.PrevDayNumber | ui.daterange.js:130-131 | Stepping a day back moves exactly one day number back |
| Dates.AddDaysNumber | ui.daterange.js:130-137 | Moving `k` days moves the day number by exactly `k` |
| Dates.ShiftDays | ui.daterange.js:130-137 | `d.setDate(d.getDate() + k)` is the date `k` days on, for any `k`, including ones that leave the month |
| Dates.DayNumberInjective | ui.daterange.js:276 | Two valid dates with the same time value are the same date |
| Dates.FromDayNumber | ui.daterange.js:346-349 | Every day number is the day number of some valid date |
| Dates.FromDayNumberOf | ui.daterange.js:346-349 | Converting a date to its day number and back gives the date |
| Dates.AddDaysAdd | ui.daterange.js:219-222 | Moving `j` days and then `k` days moves `j + k` days |
| Dates.AddDaysNext | ui.daterange.js:222 | One more day on is the next day |
| Dates.AddDaysLess | ui.daterange.js:254 | A date `k` days on is later exactly when `k > 0`, and earlier exactly when `k < 0` |
| Dates.Weekday | ui.daterange.js:219 | `getDay` is between 0 and 6 |
| Dates.WeekdayAddDays | ui.daterange.js:219 | Moving `k` days moves the weekday by `k` modulo 7 |
| Dates.MakeDate | ui.daterange.js:316 | `new Date(y, m, d)` always yields a valid date, whatever overflowing month or day it is given |
| Dates.MakeDateNumber | ui.daterange.js:316 | The day number of `new Date(y, m, d)` is ECMAScript's MakeDay: the year start plus the folded month's offset plus `d - 1` |
| Dates.MakeDateOfValid | ui.daterange.js:316 | Building a date from its own year, month and day gives it back |
| Dates.MonthStart | ui.daterange.js:342 | The month start of an index is the 1st of a month with that index |
| Dates.MonthStartOfIndex | ui.daterange.js:342 | A 1st is the month start of its own index |
| Dates.AddMonths | ui.daterange.js:151 | On a 1st, `setMonth(getMonth() + k)` is the 1st of the month `k` months on |
| Dates.AddMonthsStep | ui.daterange.js:82-83 | On a 1st, `setMonth(getMonth() ± 1)` gives the next or previous month's 1st |
| Dates.NextMonthStart | ui.daterange.js:225 | A month's length in days after its 1st, the next month starts |
| Dates.DaysOfMonth | ui.daterange.js:225-232 | The days of a month are its 1st moved 0 to length-1 days on |
| Dates.MonthStartLess | ui.daterange.js:150 | Between 1sts, calendar order is month-index order |
| Dates.FloorMonth | ui.daterange.js:339-344 | `floorMonth(d)` is the 1st of `d`'s month and not after `d` |
| Dates.FloorMonthSpan | ui.daterange.js:339-344 | A date lies within the month that starts at its floor |
| Dates.MonthIndexMonotone | ui.daterange.js:150 | Later dates lie in the same or a later month |
| Text.NatToString | ui.daterange.js:302 | `String(n)` is a canonical numeral whose value is `n` |
| Text.NatToStringOfDigits | ui.daterange.js:302 | Writing a canonical numeral's value gives the numeral back |
| Text.IntToString | ui.daterange.js:266 | `String(i)` is a canonical numeral, with a minus sign for negative numbers |
| Text.ToNumberOfIntToString | ui.daterange.js:120 | `Number(String(i))` is `i` for every integer |
| Text.ToNumber | ui.daterange.js:316 | `Number("")` is 0, a string of digits reads as its decimal value, and a negative result comes only from a leading minus sign |
| Text.ZeroPad | ui.daterange.js:300-306 | The padded string is `n` long, or as long as `s` if that is longer; it ends with `s` and has only zeros before it |
| Text.Zpad | ui.daterange.js:300-306 | The loop that prepends zeros while the string is too short computes `ZeroPad` |
| Text.ZeroPadDigits | ui.daterange.js:320 | A padded numeral is a digit string without a dash that still reads as its number |
| Text.ZeroPadTwoDigits | ui.daterange.js:320 | A two-digit field padded again after reading gives the same two characters |
| Text.ZerosValue | ui.daterange.js:300-306 | Leading zeros do not change a numeral's value |
| Text.Split | ui.daterange.js:315 | `split("-")` gives at least one part, and no part contains a dash |
| Text.JoinSplit | ui.daterange.js:315 | Joining the parts of a split with "-" gives the string back |
| Text.SplitJoin | ui.daterange.js:321 | Splitting a join of dash-free parts gives the parts back |
| Formats.NewDate | ui.daterange.js:316 | `new Date(y, m, d)` is the normalised date (years 0 to 99 read as 1900 to 1999) when it is within TimeClip's range, and NaN otherwise |
| Formats.NewDateTwoDigitYear | ui.daterange.js:316 | A year from 0 to 99 gives the same date as that year plus 1900 |
| Formats.IsoParse | ui.daterange.js:314-317 | Fewer than three parts give NaN; a date it gives is within the time range and comes from three parts that each read as a number |
| Formats.IsoFormat | ui.daterange.js:318-322 | The text is never empty; for a year from 0 on it splits into exactly three parts that read as year, month + 1 and day |
| Formats.DateFieldsSplit | ui.daterange.js:318-322 | A year from 0 on and two zero-padded numbers, joined with "-", split back into three parts that read as those numbers |
| Formats.Fallback | ui.daterange.js:357-366 | The fallback loop gives nothing exactly when every format other than the preferred one throws or gives NaN, and otherwise a date one of them gave |
| Formats.ParseDate | ui.daterange.js:351-379 | `parseDate` gives nothing exactly when every format throws or gives NaN, and otherwise a date that some format gave |
| Formats.ParseDateOrder | ui.daterange.js:351-367 | `parseDate` returns the preferred parser's date when it gives one, otherwise the other format's date when it gives one, and otherwise nothing |
| Formats.IsoParseFormat | ui.daterange.js:313-323 | Writing a date in `iso` and parsing it back gives the date, for years from 100 on within the time range |
| Formats.IsoTwoDigitYear | ui.daterange.js:314-317 | A date with a year below 100, written and parsed back, lands in the 1900s |
| Formats.IsoParseText | ui.daterange.js:314-317 | Parsing a `YYYY-MM-DD` text of an existing date gives that date |
| Formats.IsoFormatParse | ui.daterange.js:313-323 | Parsing a `YYYY-MM-DD` text and writing the date back gives the text |
| Formats.FourDigitYearInRange | ui.daterange.js:316 | Years 1000 to 9999 are within TimeClip's range |
| Formats.ParseDateIsoText | ui.daterange.js:351-355 | With `iso` preferred, a `YYYY-MM-DD` text is read without consulting the host parser |
| Selection.OnClick | ui.daterange.js:248-260 | A click on a complete range starts a new one at the clicked date. A click on a half-chosen range completes it with the clicked date and the old `first`, earlier one first. The result is always ordered |
| Selection.TwoClicks | ui.daterange.js:248-260 | Two clicks after a complete range select exactly the two clicked dates, in order |
| Selection.DaysCount | ui.daterange.js:264-266 | The days count is 1 for a half-chosen range, and at least 1 exactly when the range is in order |
| Selection.FieldValues | ui.daterange.js:262-270 | The days field's text reads back as the days count; in `iso` the start and end texts are never empty |
| Selection.InRange | ui.daterange.js:275-276 | The cell holding the `first` object is always marked; any other cell is marked exactly when the range is complete and its date lies from `first` to `last` |
| Selection.DaysCountSpan | ui.daterange.js:264-267 | The days count of an ordered range is at least 1, and `first` moved count - 1 days on is `last` (or `first` when `last` is absent) |
| Selection.InRangeSpan | ui.daterange.js:275-278 | On an ordered complete range, a cell is marked exactly when its date lies from `first` to `last`. On a half-chosen range, only the cell holding the `first` object is marked |
| Selection.InRangeInverted | ui.daterange.js:275-278 | When `last` is before `first`, only the cell holding the `first` object is marked |
| Selection.DaysField | ui.daterange.js:120 | The days count read from the field is at least 1. It is the field's number when that is a number of at least 1, and 1 when the field is not a number or is below 1 |
| Selection.DaysOption | ui.daterange.js:119-120 | Without a days field the count is 0; with one it is the field's days count, at least 1 |
| Selection.DeriveRange | ui.daterange.js:121-144 | The derived range is always complete. A start date read is its `first` and an end date read its `last`; without a days count, a missing date defaults to today |
| Selection.InitialRange | ui.daterange.js:117-147 | The same for the three fields: a start or end field that parses gives `first` or `last`, and without a days field the missing dates are today |
| Selection.DeriveFromStart | ui.daterange.js:134-137 | With a days count `n` and no end date, the range runs from the start `n - 1` days on |
| Selection.DeriveToEnd | ui.daterange.js:127-132 | With a days count `n` and no start date, the range ends at the end date (or today) and starts `n - 1` days before |
| Selection.InitialRangeDays | ui.daterange.js:117-141 | With a days field and at most one date read, the derived range is ordered and spans exactly the days count |
| Selection.InitialRangeExample | ui.daterange.js:117-141 | A start of "2024-03-15" with 5 days derives the range 15 to 19 March 2024 |
| Selection.ReadIsoFormat | ui.daterange.js:121-122 | A field holding a date written in `iso` reads back as that date |
| Selection.FieldsReadBack | ui.daterange.js:262-270 | After a click in `iso` format, the next `show()` reads the fields back as the same range (a half-chosen one as a one-day range) |
| Selection.MonthStartNotBefore | ui.daterange.js:150 | The loop test `d >= first` on a 1st holds exactly from a fixed month index on |
| Selection.MonthRangeConsecutive | ui.daterange.js:148-157 | A run of months starts where it is asked to and its months follow one another |
| Selection.InMonthRange | ui.daterange.js:148-157 | A 1st is in a run of months exactly when its index is in the run's span |
| Selection.ConsecutivePrepend | ui.daterange.js:80-86 | Adding the previous month in front keeps the months consecutive |
| Selection.ConsecutiveAppend | ui.daterange.js:92-97 | Adding the next month at the end keeps the months consecutive |
| Selection.InitialMonths | ui.daterange.js:148-156 | `show()` lists at least three consecutive months, ending with the month of `last` |
| Selection.InitialMonthsCover | ui.daterange.js:148-157 | Every 1st from `first` to `last` is listed |
| Selection.InitialMonthsStart | ui.daterange.js:148-157 | The first listed month does not start before `first`, unless the list was padded to three months |
| Selection.InitialMonthsIncludeFirst | ui.daterange.js:148-157 | The month containing `first` is listed exactly when `first` is a 1st or the three-month padding reaches it |
| Selection.LastVisible | ui.daterange.js:179 | The last visible month's index lies from the scroll index to the end of the list |
| Selection.RightArrowHidden | ui.daterange.js:179-183 | The right arrow is hidden exactly when the last visible month is today's month or later |
| Grid.Title | ui.daterange.js:211 | Only January's title carries the year: it is "January " followed by a numeral that reads back as the year, and other titles hold no digit |
| Grid.Lead | ui.daterange.js:219-223 | Fewer than 7 overflow cells come before the 1st |
| Grid.Trail | ui.daterange.js:234-235 | Fewer than 7 overflow cells come after the last day |
| Grid.GridCells | ui.daterange.js:218-235 | The first `n` cells of a month grid are `n` cells |
| Grid.GridCellAt | ui.daterange.js:218-235 | Cell `i` of the grid does not depend on how many cells follow it |
| Grid.CellAt | ui.daterange.js:219-246 | A cell is clickable exactly when `nofuture` is off or its date is not after today; a cell marked today is the month's own cell for today |
| Grid.RenderedMonth | ui.daterange.js:200-237 | A rendered month is four to six whole weeks of cells, and under `nofuture` none of its clickable cells is after today |
| Grid.GridClickableBy | ui.daterange.js:243-246 | Under `nofuture`, no clickable cell of the grid is after today |
| Grid.ClickableDatesFrom | ui.daterange.js:243-246 | Every marker date comes from a clickable cell of the grid |
| Grid.GridWeekday | ui.daterange.js:219 | Cell `i` falls on weekday `i mod 7`, so the grid starts on a Sunday |
| Grid.GridLengthWeeks | ui.daterange.js:218-235 | The grid is four, five or six whole weeks |
| Grid.GridWholeWeeks | ui.daterange.js:218-235 | The grid's first cell is a Sunday and its last a Saturday, and each cell holds the day after the one before |
| Grid.GridSpan | ui.daterange.js:218-235 | The lead and the trail are each under a week, the 1st comes right after the lead, and the month's last day right before the trail |
| Grid.GridOverflow | ui.daterange.js:222-235 | A cell is overflow exactly when its date lies outside the month, and the other cells are the month's days in order |
| Grid.GridMarks | ui.daterange.js:230-246 | Under `nofuture`, exactly the cells after today are future cells. Today's mark falls only on the month's own cell for today |
| Grid.GridToday | ui.daterange.js:207-231 | When today is in the month, its cell carries the today mark |
| Grid.ClickableDatesNotFuture | ui.daterange.js:243-246 | Under `nofuture`, no marker is after today; otherwise every cell gets one |
| Picker.RenderedMarkers | ui.daterange.js:274-279 | The markers of a rendered month are exactly the dates of its clickable cells |
| Picker.MonthMarkersNotFuture | ui.daterange.js:243-246 | Under `nofuture`, no marker of a month is after today |
| Picker.ShowMarkersNotFuture | ui.daterange.js:148-157 | Under `nofuture`, no marker collected by `show()` is after today |
| Picker.Views | ui.daterange.js:148-157 | There is one rendered month per listed month |
| Picker.ViewsAt | ui.daterange.js:148-157 | The `i`-th rendered month is the rendering of the `i`-th listed month |
| Picker.Unmarked | ui.daterange.js:274-279 | A newly pushed marker starts without `dr-inrange` |
| Picker.ViewsBy | ui.daterange.js:148-157 | Months rendered under `nofuture` have no clickable cell after the day they were rendered on, or any later day |
| Picker.CalendarByViews | ui.daterange.js:148-157 | Rendering months on `today` in front of a calendar bounded by `h` leaves it bounded by the later of `h` and today |
| Picker.CalendarByMonth | ui.daterange.js:80-97 | Rendering one month on `today` before or after a calendar bounded by `h` leaves it bounded by the later of `h` and today |
| Picker.DateRangePicker.constructor | ui.daterange.js:74-78 | Format defaults to `iso`, a zero month count to 3, and `nofuture` to true. The panel starts closed, with no range and no months |
| Picker.DateRangePicker.MakeCell | ui.daterange.js:239-281 | A future date under `nofuture` gives a future cell and no marker. Any other date gives a clickable cell and pushes one unmarked marker |
| Picker.DateRangePicker.RenderLead | ui.daterange.js:218-223 | The first loop draws the grid's cells before the 1st, stops on the 1st, and pushes their markers |
| Picker.DateRangePicker.RenderDays | ui.daterange.js:225-232 | The second loop draws the month's days, marking today's, and pushes their markers |
| Picker.DateRangePicker.RenderTrail | ui.daterange.js:234-235 | The third loop draws the overflow days up to the Saturday that completes the grid |
| Picker.DateRangePicker.RenderMonth | ui.daterange.js:200-237 | `_renderMonth` draws exactly the month grid and appends exactly that month's markers, unmarked |
| Picker.DateRangePicker.PrependPrevious | ui.daterange.js:81-85 | The month before the first listed one is rendered and put first; the months stay consecutive |
| Picker.DateRangePicker.AppendNext | ui.daterange.js:93-96 | The month after the last listed one is rendered and put last; the months stay consecutive |
| Picker.DateRangePicker.MarkRange | ui.daterange.js:284-288 | After `_markRange`, every marker's `dr-inrange` flag is the in-range test for the current range |
| Picker.DateRangePicker.SetScroll | ui.daterange.js:172-185 | Under `nofuture`, the right arrow is visible exactly when the last visible month is before today's month |
| Picker.DateRangePicker.Show | ui.daterange.js:117-170 | `show()` sets `first` and `last` to the range derived from the fields and lists `InitialMonths`. It renders them and collects their markers, marked by the range. It scrolls to the last three months, sets the right arrow, disables the fields, shows the panel and keeps the invariant |
| Picker.DateRangePicker.ShowRange | ui.daterange.js:143-170 | The same for a given range: the range, the listed months, views, markers, flags and scroll index |
| Picker.DateRangePicker.ListMonths | ui.daterange.js:148-157 | The month loop lists exactly `InitialMonths(first, last)`, renders each month, and collects their markers |
| Picker.DateRangePicker.Present | ui.daterange.js:146-169 | The given range becomes `first` and `last` and is marked, the scroll index is the third month from the end, the arrow is set, and the fields are disabled |
| Picker.DateRangePicker.Hide | ui.daterange.js:187-198 | `hide()` hides the panel, empties the calendar, markers and month list, and enables the fields |
| Picker.DateRangePicker.ToggleDropDown | ui.daterange.js:103-107 | When `open`, the drop-down does all that `hide()` does and nothing else; otherwise all that `show()` does. It returns `open` flipped |
| Picker.DateRangePicker.Close | ui.daterange.js:109-114 | The close button does all that `hide()` does and returns `open` as false |
| Picker.DateRangePicker.ScrollLeft | ui.daterange.js:80-90 | The left arrow moves the scroll index back. Below 0 it renders the previous month in front and scrolls to it. Its new markers are pushed unmarked and are not re-marked, and earlier markers keep their flags |
| Picker.DateRangePicker.ScrollRight | ui.daterange.js:92-101 | The right arrow moves the scroll index on. Within `nmonths` of the end it renders the next month at the end, with its new markers pushed unmarked. Earlier markers keep their flags |
| Picker.DateRangePicker.StepLeft | ui.daterange.js:81-87 | The scroll index moves back; below 0 the previous month is rendered in front, with its markers pushed unmarked, and the index is 0 |
| Picker.DateRangePicker.StepRight | ui.daterange.js:93-98 | The scroll index moves on; within `nmonths` of the end the next month is rendered at the end, with its markers pushed unmarked |
| Picker.DateRangePicker.OnDayClick | ui.daterange.js:248-272 | A click moves the range as `OnClick` does and writes the start, days and end fields as `FieldValues` gives them. It re-marks every marker, and the clicked cell is always marked afterwards. Under `nofuture` the clicked date is not after the day the calendar was rendered on |
| Picker.DateRangePicker.Choose | ui.daterange.js:248-260 | `first` and `last` move as `OnClick` says, and `first` becomes the clicked cell's object whenever it moves. Under `nofuture` the clicked date is not after the day the calendar was rendered on |
| Picker.DateRangePicker.Refresh | ui.daterange.js:262-271 | The fields get the new range's values, every marker is re-marked for it, and the clicked cell's marker is highlighted when its date is in the range |
| Picker.DateRangePicker.Remark | ui.daterange.js:271 | Every marker is re-marked for the new range, and the clicked cell's marker is highlighted when its date is in the range |
| Picker.DateRangePicker.WriteFields | ui.daterange.js:262-270 | The start field gets `first` formatted. The days field, when bound, gets the days count, and the end field, when bound, gets `last` (or `first`) formatted |

## Left out

- Page layout is not modelled: the DOM, CSS classes other than `dr-inrange`, and positions. The model does not capture:
  - the panel's left offset in `_setScroll`;
  - the `dr-week` rows (a month's cells are one flat sequence);
  - the day-name header.
- The host's `new Date(s)` and `toLocaleDateString()` depend on the host and its locale. The `js` format therefore takes them as total tables, `JsParser` and `JsFormatter`, and nothing is proved about them.
- `today()` reads the wall clock. It is a `today` parameter of every operation that needs it.
- Dates carry no time of day. The host's days count divides by 86400000 and rounds, which gives the whole-day difference even across a daylight-saving change, so the model counts whole days directly.
- `Number(s)` is modelled for "" and optionally signed decimal digit strings only. Other numeric syntaxes (blanks, exponents, hexadecimal, fractions) read as NaN here.
- Date objects are not modelled beyond TimeClip's range for results of `new Date(y, m, d)`. Day arithmetic with `setDate` and `setMonth` that overflows that range does not become NaN in the model.
- Dates.AddMonths: `setMonth` is modelled on the 1st of a month only, because the widget calls it only on month starts (`Selection.RightArrowHidden` requires the same of the month it steps from).
- `_map` and `datemap` are not modelled, because nothing calls `_map`.
- `floorDay` is not modelled separately, because every date is already at midnight.
- An unknown `format` option is not modelled: `Format` admits only `js` and `iso`.
- Edits the user makes in the inputs while the panel is closed are not modelled: the field values are set at construction and by clicks only.
- Picker.DateRangePicker.Show: `show()` does not empty the calendar itself. When it runs without a prior `hide()`, the old month elements stay. Their stale cells keep their click handlers but have no marker. The model keeps those old views (`views == Views(...) + old(views)`) and lets a click name no marker (`cell == None`), but does not model their order in the page.
- jQuery widget plumbing is not modelled: `$.widget`, `$.extend` and option handling beyond `_init`.
