/**
  The date formats of the picker and `parseDate`.

  Each format is a parser and a formatter.  The `iso` pair is modelled
  exactly; the `js` pair (`new Date(s)` and `toLocaleDateString()`) depends
  on the host and its locale, so it is passed in as a pair of functions.
*/
module Formats {
  import opened Wrappers
  import opened Dates
  import opened Text

  /** The names the `format` option accepts, in the order `for (var format in formats)` visits them. */
  datatype Format = Js | Iso

  const Registry: seq<Format> := [Js, Iso]

  /** What a host Date object holds: a day, or NaN (an "Invalid Date"). */
  datatype JsDate = NaN | Time(date: ValidDate)

  /** A parser call either throws or returns a Date object. */
  datatype Attempt = Threw | Returned(value: JsDate)

  /** TimeClip: time values beyond 8.64e15 ms, that is 10^8 days, are NaN. */
  const MaxDays := 100000000

  predicate InTimeRange(d: Date)
    requires Valid(d)
  {
    -MaxDays <= DayNumber(d) <= MaxDays
  }

  /** The host maps the years 0 to 99 to 1900 to 1999 when building a date from parts. */
  function FullYear(y: int): int {
    if 0 <= y <= 99 then 1900 + y else y
  }

  /**
    `new Date(y, m, d)` on numbers: the day numbered by ECMAScript's MakeDay
    (the month carried into the year, the day counted on from the 1st, a
    year from 0 to 99 taken as 1900 to 1999), or NaN when that day is beyond
    TimeClip's range.
  */
  function NewDate(y: int, m: int, d: int): (r: JsDate)
    ensures var ym := FullYear(y) + m / 12;
      var n := YearStart(ym) + DaysBeforeMonth(ym, m % 12) + d - 1;
      (r.Time? <==> -MaxDays <= n <= MaxDays) && (r.Time? ==> DayNumber(r.date) == n)
  {
    var date := MakeDate(FullYear(y), m, d);
    MakeDateNumber(FullYear(y), m, d);
    if InTimeRange(date) then Time(date) else NaN
  }

  /** A year from 0 to 99 builds the same date as the same year in the 1900s. */
  lemma NewDateTwoDigitYear(y: int, m: int, d: int)
    requires 0 <= y <= 99
    ensures NewDate(y, m, d) == NewDate(1900 + y, m, d)
  {
  }

  /**
    The `iso` parser: split on "-" and build the date from year, month - 1
    and day.  A missing part is `undefined`, which makes the date NaN, and
    parts after the third are ignored.
  */
  function IsoParse(s: string): (r: JsDate)
    ensures |Split(s)| < 3 ==> r == NaN
    ensures r.Time? ==> InTimeRange(r.date)
    ensures r.Time? ==> ToNumber(Split(s)[0]).Some? && ToNumber(Split(s)[1]).Some? && ToNumber(Split(s)[2]).Some?
  {
    var parts := Split(s);
    if |parts| < 3 then NaN
    else
      match (ToNumber(parts[0]), ToNumber(parts[1]), ToNumber(parts[2]))
      case (Some(y), Some(m), Some(d)) => NewDate(y, m - 1, d)
      case _ => NaN
  }

  /**
    The `iso` formatter: full year, then month and day padded to two digits,
    joined by "-".  The text is never empty, and for a year from 0 on it
    splits back into three parts that read as year, month + 1 and day.
  */
  function IsoFormat(d: ValidDate): (r: string)
    ensures |r| > 0
    ensures d.year >= 0 ==> var parts := Split(r);
      |parts| == 3 && ToNumber(parts[0]) == Some(d.year)
      && ToNumber(parts[1]) == Some(d.month + 1) && ToNumber(parts[2]) == Some(d.day)
  {
    var a, b, c := IntToString(d.year), ZeroPad(NatToString(d.month + 1), 2), ZeroPad(NatToString(d.day), 2);
    JoinThree(a, b, c);
    DateFieldsSplit(d.year, d.month + 1, d.day);
    Join([a, b, c])
  }

  /** A year from 0 on and two padded numbers, joined by dashes, split back into the three numbers. */
  lemma DateFieldsSplit(y: int, m: nat, d: nat)
    ensures y >= 0 ==>
      var a, b, c := IntToString(y), ZeroPad(NatToString(m), 2), ZeroPad(NatToString(d), 2);
      var parts := Split(Join([a, b, c]));
      |parts| == 3 && ToNumber(parts[0]) == Some(y) && ToNumber(parts[1]) == Some(m) && ToNumber(parts[2]) == Some(d)
  {
    if y >= 0 {
      var a, b, c := IntToString(y), ZeroPad(NatToString(m), 2), ZeroPad(NatToString(d), 2);
      ToNumberOfIntToString(y);
      DigitsNoDash(a);
      ZeroPadDigits(m, 2);
      ZeroPadDigits(d, 2);
      SplitJoinThree(a, b, c);
    }
  }

  /**
    The host's `new Date(s)` and `toLocaleDateString()`: total tables, since
    the model does not say what they compute, only that they are functions.
  */
  type JsParser = p: imap<string, Attempt> | forall s :: s in p
    ghost witness imap s: string :: Threw
  type JsFormatter = p: imap<ValidDate, string> | forall d :: d in p
    ghost witness imap d: ValidDate :: ""

  /** `formats[f][0](s)`. */
  function Parse(f: Format, jsParse: JsParser, s: string): Attempt {
    match f
    case Iso => Returned(IsoParse(s))
    case Js => jsParse[s]
  }

  /** `formats[f][1](d)`. */
  function FormatDate(f: Format, jsFormat: JsFormatter, d: ValidDate): string {
    match f
    case Iso => IsoFormat(d)
    case Js => jsFormat[d]
  }

  /** `tryParser`: the parsed date, or nothing if the parser threw or gave NaN. */
  function TryParser(f: Format, jsParse: JsParser, s: string): Option<ValidDate> {
    match Parse(f, jsParse, s)
    case Returned(Time(d)) => Some(d)
    case _ => None
  }

  /**
    The fallback loop of `parseDate`: the remaining formats in order, skipping
    the preferred one.  It gives nothing exactly when each of them throws or
    gives NaN, and otherwise a date one of them gave.
  */
  function Fallback(fs: seq<Format>, preferred: Format, jsParse: JsParser, s: string): (r: Option<ValidDate>)
    ensures r.None? <==>
      forall i :: 0 <= i < |fs| && fs[i] != preferred ==> Parse(fs[i], jsParse, s) in {Threw, Returned(NaN)}
    ensures r.Some? ==>
      exists i :: 0 <= i < |fs| && fs[i] != preferred && Parse(fs[i], jsParse, s) == Returned(Time(r.value))
    decreases |fs|
  {
    if |fs| == 0 then None
    else if fs[0] == preferred then Fallback(fs[1..], preferred, jsParse, s)
    else
      match TryParser(fs[0], jsParse, s)
      case Some(d) => Some(d)
      case None => Fallback(fs[1..], preferred, jsParse, s)
  }

  /**
    `parseDate(str, preferredParser)`: nothing exactly when every format
    throws or gives NaN, and otherwise a date some format gave.
  */
  function ParseDate(s: string, preferred: Format, jsParse: JsParser): (r: Option<ValidDate>)
    ensures r.None? <==> forall f :: f in Registry ==> Parse(f, jsParse, s) in {Threw, Returned(NaN)}
    ensures r.Some? ==> exists f :: f in Registry && Parse(f, jsParse, s) == Returned(Time(r.value))
  {
    match TryParser(preferred, jsParse, s)
    case Some(d) => Some(d)
    case None => Fallback(Registry, preferred, jsParse, s)
  }

  /** The format other than `f`. */
  function Other(f: Format): Format {
    if f == Iso then Js else Iso
  }

  /**
    `parseDate` returns the preferred parser's date when it has one, and
    otherwise the other format's date, if any.
  */
  lemma ParseDateOrder(s: string, preferred: Format, jsParse: JsParser)
    ensures var p, o := Parse(preferred, jsParse, s), Parse(Other(preferred), jsParse, s);
      ParseDate(s, preferred, jsParse) ==
        if p.Returned? && p.value.Time? then Some(p.value.date)
        else if o.Returned? && o.value.Time? then Some(o.value.date)
        else None
  {
    assert Registry[1..][1..] == [];
  }

  /** Writing a date in `iso` and parsing it back gives the date, for years from 100 on. */
  lemma IsoParseFormat(d: ValidDate)
    requires d.year >= 100 && InTimeRange(d)
    ensures IsoParse(IsoFormat(d)) == Time(d)
  {
    MakeDateOfValid(d);
  }

  /** A `YYYY-MM-DD` text naming an existing date with a year from 1000 to 9999. */
  predicate IsIsoText(s: string) {
    |s| == 10 && s[4] == '-' && s[7] == '-'
    && AllDigits(s[..4]) && AllDigits(s[5..7]) && AllDigits(s[8..]) && s[0] != '0'
    && Valid(Date(DigitsValue(s[..4]), DigitsValue(s[5..7]) - 1, DigitsValue(s[8..])))
  }

  /** The date an `iso` text names. */
  function IsoTextDate(s: string): ValidDate
    requires IsIsoText(s)
  {
    Date(DigitsValue(s[..4]), DigitsValue(s[5..7]) - 1, DigitsValue(s[8..]))
  }

  /** A year from 1000 to 9999 is well inside the time range. */
  lemma FourDigitYearInRange(d: ValidDate)
    requires 1000 <= d.year <= 9999
    ensures InTimeRange(d)
  {
    YearStartBound(d.year);
    DayNumberInYear(d);
  }

  /** An `iso` text is its three fields joined by dashes. */
  lemma IsoTextFields(s: string)
    requires IsIsoText(s)
    ensures s == Join([s[..4], s[5..7], s[8..]])
    ensures Split(s) == [s[..4], s[5..7], s[8..]]
  {
    var y, m, d := s[..4], s[5..7], s[8..];
    JoinThree(y, m, d);
    assert s == y + "-" + m + "-" + d;
    DigitsNoDash(y);
    DigitsNoDash(m);
    DigitsNoDash(d);
    SplitJoin([y, m, d]);
  }

  /** The year of an `iso` text has four digits and no leading zero. */
  lemma IsoTextYear(s: string)
    requires IsIsoText(s)
    ensures 1000 <= IsoTextDate(s).year <= 9999
  {
    FourDigits(s[..4]);
    assert DigitValue(s[0]) >= 1;
  }

  /** The `iso` parser builds its date from the numbers in the first three fields. */
  lemma IsoParseOfNumbers(s: string, y: int, m: int, d: int)
    requires |Split(s)| >= 3
    requires ToNumber(Split(s)[0]) == Some(y) && ToNumber(Split(s)[1]) == Some(m)
    requires ToNumber(Split(s)[2]) == Some(d)
    ensures IsoParse(s) == NewDate(y, m - 1, d)
  {
  }

  /** Parsing a `YYYY-MM-DD` text gives the date it names. */
  lemma IsoParseText(s: string)
    requires IsIsoText(s)
    ensures IsoParse(s) == Time(IsoTextDate(s))
  {
    var date := IsoTextDate(s);
    IsoTextFields(s);
    IsoParseOfNumbers(s, date.year, date.month + 1, date.day);
    IsoTextYear(s);
    FourDigitYearInRange(date);
    MakeDateOfValid(date);
  }

  /** Parsing a `YYYY-MM-DD` text and writing the date back in `iso` gives the text. */
  lemma IsoFormatParse(s: string)
    requires IsIsoText(s)
    ensures IsoParse(s).Time? && IsoFormat(IsoParse(s).date) == s
  {
    var date := IsoTextDate(s);
    IsoParseText(s);
    IsoTextFields(s);
    IsoTextYear(s);
    NatToStringOfDigits(s[..4]);
    ZeroPadTwoDigits(s[5..7]);
    ZeroPadTwoDigits(s[8..]);
    assert IntToString(date.year) == s[..4];
  }

  /** The two-digit-year rule: a date written with a year below 100 parses into the 1900s. */
  lemma IsoTwoDigitYear(d: ValidDate)
    requires 0 <= d.year <= 99
    ensures IsoParse(IsoFormat(d)) == NewDate(1900 + d.year, d.month, d.day)
  {
  }

  /** With `iso` preferred, `parseDate` reads an `iso` text without consulting the host parser. */
  lemma ParseDateIsoText(s: string, jsParse: JsParser)
    requires IsIsoText(s)
    ensures ParseDate(s, Iso, jsParse) == Some(IsoTextDate(s))
  {
    IsoParseText(s);
  }
}
