/** The normalisation helpers of the event hook
    (src/database/event.model.js:126-144): `normalizeDate` keeps the date
    part of `Date.prototype.toISOString`, and `normalizeTime` writes the hour
    and the minute as `HH:MM`. The JavaScript `Date` parser they call is not
    modelled: each helper takes it as a parameter that either gives the
    parsed value or reports that the result is an invalid date. */
module DateTime {
  import opened Text
  import opened Wrappers
  import opened Middleware

  /** The years a JavaScript `Date` can hold: its time value lies within
      8.64e15 milliseconds of 1970-01-01T00:00:00Z. */
  type Year = y: int | -271821 <= y <= 275760
  type Month = m: int | 1 <= m <= 12 witness 1
  type Day = d: int | 1 <= d <= 31 witness 1
  type Hour = h: int | 0 <= h <= 23
  type Minute = m: int | 0 <= m <= 59

  /** The UTC calendar date of a valid `Date`. */
  datatype CalendarDate = CalendarDate(year: Year, month: Month, day: Day)

  /** The local hour and minute of a valid `Date`. */
  datatype TimeOfDay = TimeOfDay(hour: Hour, minute: Minute)

  /** `String(n).padStart(width, '0')`. */
  function Padded(n: nat, width: nat): string {
    PadStartZeros(DecimalString(n), width)
  }

  /** The year as `toISOString` writes it: four digits for 0..9999, and
      otherwise a sign followed by six digits. */
  function YearField(y: Year): string {
    if 0 <= y <= 9999 then Padded(y, 4) else Sign(y) + Padded(Abs(y), 6)
  }

  function Sign(y: int): string {
    if y < 0 then "-" else "+"
  }

  function Abs(y: int): nat {
    if y < 0 then -y else y
  }

  /** `date.toISOString().split('T')[0]`. */
  function IsoDate(d: CalendarDate): string {
    YearField(d.year) + "-" + Padded(d.month, 2) + "-" + Padded(d.day, 2)
  }

  /** The `${hours}:${minutes}` template of line 143. */
  function HHMM(t: TimeOfDay): string {
    Padded(t.hour, 2) + ":" + Padded(t.minute, 2)
  }

  // ---------------------------------------------------------------------
  // The helpers, with parsing as a parameter

  const InvalidDate := JsError("Error", "Invalid date format")
  const InvalidTime := JsError("Error", "Invalid time format")

  /** `normalizeDate(dateStr)`: an unparseable string throws
      `Error('Invalid date format')`; otherwise the result is the date part of
      `toISOString()` for the parsed date. */
  function NormalizeDate(parseDate: string -> Option<CalendarDate>, s: string): (r: Result<string, JsError>)
    ensures r.Failure? <==> parseDate(s).None?
    ensures r.Failure? ==> r.error == InvalidDate
    ensures r.Success? ==> r.value == IsoDate(parseDate(s).value)
  {
    match parseDate(s)
    case None => Failure(InvalidDate)
    case Some(d) => Success(IsoDate(d))
  }

  /** `normalizeTime(timeStr)`: an unparseable time throws
      `Error('Invalid time format')`; otherwise the result is the parsed hour
      and minute, each padded to two digits. */
  function NormalizeTime(parseTime: string -> Option<TimeOfDay>, s: string): (r: Result<string, JsError>)
    ensures r.Failure? <==> parseTime(s).None?
    ensures r.Failure? ==> r.error == InvalidTime
    ensures r.Success? ==> r.value == HHMM(parseTime(s).value)
  {
    match parseTime(s)
    case None => Failure(InvalidTime)
    case Some(t) => Success(HHMM(t))
  }

  /** A normalised date has the four-digit `YYYY-MM-DD` shape exactly when
      its year is in 0..9999, and then reads back as the parsed date. */
  lemma NormalizeDateCanonical(parseDate: string -> Option<CalendarDate>, s: string)
    ensures var r := NormalizeDate(parseDate, s);
      && (r.Success? ==> (IsIsoDate(r.value) <==> 0 <= parseDate(s).value.year <= 9999))
      && (r.Success? && IsIsoDate(r.value) ==> ParseIsoDate(r.value) == parseDate(s).value)
  {
    if parseDate(s).Some? {
      IsoDateRoundTrip(parseDate(s).value);
    }
  }

  /** A normalised time has the `HH:MM` shape and reads back as the parsed
      hour and minute. */
  lemma NormalizeTimeCanonical(parseTime: string -> Option<TimeOfDay>, s: string)
    ensures var r := NormalizeTime(parseTime, s);
      r.Success? ==> IsHHMM(r.value) && ParseHHMM(r.value) == parseTime(s).value
  {
    if parseTime(s).Some? {
      HHMMRoundTrip(parseTime(s).value);
    }
  }

  /** When the parser reads the ISO form of the date it found in `s` back as
      that date (as `new Date` does for the UTC date part `toISOString`
      wrote), normalising the result again changes nothing. */
  lemma NormalizeDateIdempotent(parseDate: string -> Option<CalendarDate>, s: string)
    requires parseDate(s).Some? ==> parseDate(IsoDate(parseDate(s).value)) == parseDate(s)
    ensures NormalizeDate(parseDate, s).Success? ==>
      NormalizeDate(parseDate, NormalizeDate(parseDate, s).value) == NormalizeDate(parseDate, s)
  {
    if parseDate(s).Some? {
      var d := parseDate(s).value;
      assert NormalizeDate(parseDate, s) == Success(IsoDate(d));
      assert parseDate(IsoDate(d)) == Some(d);
    }
  }

  /** Likewise for `normalizeTime` and a parser that reads `HH:MM` back. */
  lemma NormalizeTimeIdempotent(parseTime: string -> Option<TimeOfDay>, s: string)
    requires forall t :: parseTime(HHMM(t)) == Some(t)
    ensures NormalizeTime(parseTime, s).Success? ==>
      NormalizeTime(parseTime, NormalizeTime(parseTime, s).value) == NormalizeTime(parseTime, s)
  {
    if parseTime(s).Some? {
      var t := parseTime(s).value;
      assert NormalizeTime(parseTime, s) == Success(HHMM(t));
      assert parseTime(HHMM(t)) == Some(t);
    }
  }

  // ---------------------------------------------------------------------
  // The shapes the helpers produce, and reading them back

  /** `HH:MM` with an hour of at most 23 and a minute of at most 59. */
  predicate IsHHMM(s: string) {
    && |s| == 5 && s[2] == ':'
    && AllDigits(s[..2]) && AllDigits(s[3..])
    && DigitsValue(s[..2]) <= 23 && DigitsValue(s[3..]) <= 59
  }

  function ParseHHMM(s: string): TimeOfDay
    requires IsHHMM(s)
  {
    TimeOfDay(DigitsValue(s[..2]), DigitsValue(s[3..]))
  }

  /** `YYYY-MM-DD` with a month in 1..12 and a day in 1..31. */
  predicate IsIsoDate(s: string) {
    && |s| == 10 && s[4] == '-' && s[7] == '-'
    && AllDigits(s[..4]) && AllDigits(s[5..7]) && AllDigits(s[8..])
    && 1 <= DigitsValue(s[5..7]) <= 12 && 1 <= DigitsValue(s[8..]) <= 31
  }

  function ParseIsoDate(s: string): (d: CalendarDate)
    requires IsIsoDate(s)
    ensures 0 <= d.year <= 9999
  {
    DigitsBelow(s[..4]);
    assert Pow10(4) == 10000 by {
      assert Pow10(1) == 10;
      assert Pow10(2) == 100;
      assert Pow10(3) == 1000;
    }
    CalendarDate(DigitsValue(s[..4]), DigitsValue(s[5..7]), DigitsValue(s[8..]))
  }

  lemma TwoDigits(n: nat)
    requires n < 100
    ensures |Padded(n, 2)| == 2 && AllDigits(Padded(n, 2)) && DigitsValue(Padded(n, 2)) == n
  {
    assert Pow10(2) == 100 by { assert Pow10(1) == 10; }
    PaddedDecimal(n, 2);
  }

  lemma FourDigits(n: nat)
    requires n < 10000
    ensures |Padded(n, 4)| == 4 && AllDigits(Padded(n, 4)) && DigitsValue(Padded(n, 4)) == n
  {
    assert Pow10(4) == 10000 by {
      assert Pow10(1) == 10;
      assert Pow10(2) == 100;
      assert Pow10(3) == 1000;
    }
    PaddedDecimal(n, 4);
  }

  lemma SixDigits(n: nat)
    requires n < 1000000
    ensures |Padded(n, 6)| == 6 && AllDigits(Padded(n, 6)) && DigitsValue(Padded(n, 6)) == n
  {
    assert Pow10(6) == 1000000 by {
      assert Pow10(1) == 10;
      assert Pow10(2) == 100;
      assert Pow10(3) == 1000;
      assert Pow10(4) == 10000;
      assert Pow10(5) == 100000;
    }
    PaddedDecimal(n, 6);
  }

  /** Every time of day is written in the `HH:MM` shape (length 5, a colon
      at index 2, digits elsewhere) and reads back as itself. */
  lemma HHMMRoundTrip(t: TimeOfDay)
    ensures IsHHMM(HHMM(t)) && ParseHHMM(HHMM(t)) == t
  {
    TwoDigits(t.hour);
    TwoDigits(t.minute);
    SplitAtColon(Padded(t.hour, 2), Padded(t.minute, 2), HHMM(t));
  }

  lemma SplitAtColon(h: string, m: string, r: string)
    requires |h| == 2 && |m| == 2 && r == h + ":" + m
    ensures |r| == 5 && r[2] == ':' && r[..2] == h && r[3..] == m
  {
  }

  /** Conversely, every `HH:MM` string is the form of the time it denotes. */
  lemma HHMMOfParsed(s: string)
    requires IsHHMM(s)
    ensures HHMM(ParseHHMM(s)) == s
  {
    var h, m := s[..2], s[3..];
    PaddedDigits(h);
    PaddedDigits(m);
    JoinAtColon(s);
  }

  lemma JoinAtColon(s: string)
    requires |s| == 5 && s[2] == ':'
    ensures s == s[..2] + ":" + s[3..]
  {
  }

  /** A date in years 0..9999 is written as `YYYY-MM-DD` and reads back as
      itself; a date in any other year has no such form, since its year
      carries a sign. */
  lemma IsoDateRoundTrip(d: CalendarDate)
    ensures IsIsoDate(IsoDate(d)) <==> 0 <= d.year <= 9999
    ensures IsIsoDate(IsoDate(d)) ==> ParseIsoDate(IsoDate(d)) == d
  {
    if 0 <= d.year <= 9999 {
      FourDigitYear(d);
    } else {
      ExpandedYearDate(d);
    }
  }

  lemma FourDigitYear(d: CalendarDate)
    requires 0 <= d.year <= 9999
    ensures IsIsoDate(IsoDate(d)) && ParseIsoDate(IsoDate(d)) == d
  {
    var y, m, dd := Padded(d.year, 4), Padded(d.month, 2), Padded(d.day, 2);
    TwoDigits(d.month);
    TwoDigits(d.day);
    FourDigits(d.year);
    FourDigitYearJoin(d);
    IsoDateFromParts(y, m, dd, IsoDate(d), d);
  }

  lemma FourDigitYearJoin(d: CalendarDate)
    requires 0 <= d.year <= 9999
    ensures IsoDate(d) == Padded(d.year, 4) + "-" + Padded(d.month, 2) + "-" + Padded(d.day, 2)
  {
    assert YearField(d.year) == Padded(d.year, 4);
  }

  lemma IsoDateFromParts(y: string, m: string, dd: string, r: string, d: CalendarDate)
    requires |y| == 4 && AllDigits(y) && DigitsValue(y) == d.year
    requires |m| == 2 && AllDigits(m) && DigitsValue(m) == d.month
    requires |dd| == 2 && AllDigits(dd) && DigitsValue(dd) == d.day
    requires r == y + "-" + m + "-" + dd
    ensures IsIsoDate(r) && ParseIsoDate(r) == d
  {
    SplitAtDashes(y, m, dd, r);
  }

  lemma SplitAtDashes(y: string, m: string, d: string, r: string)
    requires |y| == 4 && |m| == 2 && |d| == 2 && r == y + "-" + m + "-" + d
    ensures |r| == 10 && r[4] == '-' && r[7] == '-' && r[..4] == y && r[5..7] == m && r[8..] == d
  {
  }

  lemma ExpandedYearDate(d: CalendarDate)
    requires !(0 <= d.year <= 9999)
    ensures !IsIsoDate(IsoDate(d))
  {
    var r := IsoDate(d);
    assert r[0] == Sign(d.year)[0];
    SignedIsNotIsoDate(r);
  }

  lemma SignedIsNotIsoDate(r: string)
    requires |r| >= 1 && r[0] in "+-"
    ensures !IsIsoDate(r)
  {
    if |r| >= 4 {
      assert r[..4][0] == r[0];
    }
  }

  /** A year outside 0..9999 is written as its sign followed by six digits
      that denote its absolute value. */
  lemma ExpandedYear(y: Year)
    requires !(0 <= y <= 9999)
    ensures |YearField(y)| == 7 && YearField(y)[0] == (if y < 0 then '-' else '+')
    ensures AllDigits(YearField(y)[1..]) && DigitsValue(YearField(y)[1..]) == Abs(y)
  {
    SixDigits(Abs(y));
    assert YearField(y)[1..] == Padded(Abs(y), 6);
  }

  /** Conversely, every `YYYY-MM-DD` string is the ISO form of its date. */
  lemma IsoDateOfParsed(s: string)
    requires IsIsoDate(s)
    ensures IsoDate(ParseIsoDate(s)) == s
  {
    var y, m, dd := s[..4], s[5..7], s[8..];
    var d := ParseIsoDate(s);
    PaddedDigits(y);
    PaddedDigits(m);
    PaddedDigits(dd);
    FourDigitYearJoin(d);
    JoinAtDashes(s);
  }

  lemma JoinAtDashes(s: string)
    requires |s| == 10 && s[4] == '-' && s[7] == '-'
    ensures s == s[..4] + "-" + s[5..7] + "-" + s[8..]
  {
  }

  /** A digit string is the zero-padded decimal form of its own value. */
  lemma PaddedDigits(s: string)
    requires |s| >= 1 && AllDigits(s)
    ensures Padded(DigitsValue(s), |s|) == s
  {
    var d := DecimalString(DigitsValue(s));
    ZeroPaddedDecimal(s, d);
    SameDigits(PadStartZeros(d, |s|), s, d);
  }

  /** Two strings of one length that end in `d` and are zeros before it. */
  lemma SameDigits(r: string, s: string, d: string)
    requires |r| == |s| && |d| <= |s|
    requires r[|r| - |d|..] == d && s[|s| - |d|..] == d
    requires forall i :: 0 <= i < |r| - |d| ==> r[i] == '0'
    requires forall i :: 0 <= i < |s| - |d| ==> s[i] == '0'
    ensures r == s
  {
    forall i | 0 <= i < |s|
      ensures r[i] == s[i]
    {
      if i >= |s| - |d| {
        assert r[i] == r[|r| - |d|..][i - (|s| - |d|)];
        assert s[i] == s[|s| - |d|..][i - (|s| - |d|)];
      }
    }
  }

  /** A digit string is its value's decimal form after some zeros. */
  lemma {:induction false} ZeroPaddedDecimal(s: string, d: string)
    requires |s| >= 1 && AllDigits(s) && d == DecimalString(DigitsValue(s))
    ensures |d| <= |s| && s[|s| - |d|..] == d
    ensures forall i :: 0 <= i < |s| - |d| ==> s[i] == '0'
    decreases |s|
  {
    var v := DigitsValue(s);
    var c := s[|s| - 1];
    var p := s[..|s| - 1];
    assert s == p + [c];
    assert AllDigits(p);
    assert v == 10 * DigitsValue(p) + DigitValue(c);
    if |s| == 1 {
      assert p == [];
      assert d == [c];
    } else {
      var dp := DecimalString(DigitsValue(p));
      ZeroPaddedDecimal(p, dp);
      if DigitsValue(p) == 0 {
        assert dp == "0";
        assert d == [c];
        assert forall i :: 0 <= i < |p| ==> p[i] == '0' by {
          assert p[|p| - 1..] == dp;
          assert p[|p| - 1] == p[|p| - 1..][0];
        }
      } else {
        assert v / 10 == DigitsValue(p) && v % 10 == DigitValue(c);
        assert d == dp + [c];
        assert s[|s| - |d|..] == p[|p| - |dp|..] + [c];
      }
    }
  }
}
