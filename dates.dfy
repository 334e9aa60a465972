/** Calendar dates: reading `day monthname year` as `datetime.strptime(s,
    '%d %B %Y')` does with English month names, and writing the ISO 8601
    calendar-date extended form YYYY-MM-DD (`strftime('%Y-%m-%d')`). */
module Dates {
  import opened Text
  import opened Numbers

  datatype Date = Date(year: int, month: int, day: int)

  /** Proleptic Gregorian leap years, as Python's `datetime` uses. */
  predicate IsLeapYear(y: int)
  {
    y % 4 == 0 && (y % 100 != 0 || y % 400 == 0)
  }

  function DaysInMonth(y: int, m: int): int
  {
    if m == 2 then (if IsLeapYear(y) then 29 else 28)
    else if m == 4 || m == 6 || m == 9 || m == 11 then 30
    else 31
  }

  /** A date `datetime` can represent (years 1..9999). */
  predicate ValidDate(d: Date)
  {
    1 <= d.year <= 9999 && 1 <= d.month <= 12 && 1 <= d.day <= DaysInMonth(d.year, d.month)
  }

  const MonthNames: seq<string> := [
    "JANUARY", "FEBRUARY", "MARCH", "APRIL", "MAY", "JUNE",
    "JULY", "AUGUST", "SEPTEMBER", "OCTOBER", "NOVEMBER", "DECEMBER"]

  /** The month a full English month name denotes, in any case; 0 for none. */
  function MonthNumber(w: string): (m: int)
    ensures 0 <= m <= 12
    ensures m > 0 ==> Upper(w) == MonthNames[m - 1]
    ensures m == 0 ==> forall k :: 0 <= k < 12 ==> Upper(w) != MonthNames[k]
  {
    MonthFrom(Upper(w), 0)
  }

  function MonthFrom(u: string, k: nat): (m: int)
    requires k <= 12
    decreases 12 - k
    ensures m == 0 || k < m <= 12
    ensures m > 0 ==> u == MonthNames[m - 1]
    ensures m == 0 ==> forall j :: k <= j < 12 ==> u != MonthNames[j]
  {
    if k == 12 then 0 else if u == MonthNames[k] then k + 1 else MonthFrom(u, k + 1)
  }

  /** `datetime.strptime(s, '%d %B %Y')`: a day of one or two digits,
      whitespace, a full month name, whitespace, a four-digit year, and
      nothing else; None where strptime raises (no match, text left over,
      or no such calendar day). */
  function ParseLongDate(s: string): (r: Option<Date>)
    ensures r.Some? ==> ValidDate(r.value)
  {
    var d := SkipDigits(s, 0);
    if d == 0 || d > 2 then None
    else
      var a := SkipSpace(s, d);
      var b := SkipLetters(s, a);
      var c := SkipSpace(s, b);
      var month := MonthNumber(s[a..b]);
      if a == d || month == 0 || c == b || |s| - c != 4 || !AllDigits(s[c..]) then None
      else
        var date := Date(DigitsValue(s[c..]), month, DigitsValue(s[..d]));
        if ValidDate(date) then Some(date) else None
  }

  /** `date.strftime('%Y-%m-%d')` */
  function FormatIso(d: Date): (s: string)
    requires ValidDate(d)
    ensures |s| == 10
  {
    PadDigits(d.year, 4) + "-" + PadDigits(d.month, 2) + "-" + PadDigits(d.day, 2)
  }

  /** Reading YYYY-MM-DD back; None unless it is a valid calendar date. */
  function ParseIso(s: string): (r: Option<Date>)
    ensures r.Some? ==> ValidDate(r.value)
  {
    if |s| == 10 && s[4] == '-' && s[7] == '-'
       && AllDigits(s[..4]) && AllDigits(s[5..7]) && AllDigits(s[8..])
    then
      var date := Date(DigitsValue(s[..4]), DigitsValue(s[5..7]), DigitsValue(s[8..]));
      if ValidDate(date) then Some(date) else None
    else None
  }

  /** A string in the ISO 8601 calendar-date extended form naming a real day. */
  predicate IsIsoDate(s: string)
  {
    ParseIso(s).Some?
  }

  /** Formatting a valid date and reading it back gives the same date. */
  lemma IsoRoundTrip(d: Date)
    requires ValidDate(d)
    ensures ParseIso(FormatIso(d)) == Some(d)
  {
    var s := FormatIso(d);
    PadDigitsValue(d.year, 4);
    PadDigitsValue(d.month, 2);
    PadDigitsValue(d.day, 2);
    assert s[..4] == PadDigits(d.year, 4);
    assert s[5..7] == PadDigits(d.month, 2);
    assert s[8..] == PadDigits(d.day, 2);
  }
}
