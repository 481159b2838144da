/**
  * The partial-date helpers of api/api_utils.py (`normalize_date` also appears, unchanged, in
  * api/routes.py): padding a partial date to a full one, and the first and last day of the
  * period a date string names. Dates are the calendar dates of ISO 8601, complete
  * (`YYYY-MM-DD`) or of reduced accuracy (`YYYY-MM`, `YYYY`).
  */
module Dates {
  import opened Wrappers
  import opened Text

  // ---------------------------------------------------------------- normalize_date

  /** `normalize_date`: drop every '~', then pad a year to its first day and a month to its
      first day; anything with two or more '-' is returned as it is. */
  function NormalizeDate(dateStr: string): string
  {
    var t := RemoveChar(dateStr, '~');
    var parts := Split(t, '-');
    if |parts| == 1 then parts[0] + "-01-01"
    else if |parts| == 2 then parts[0] + "-" + parts[1] + "-01"
    else t
  }

  /** In terms of the '-' count of the '~'-free text: none gives `-01-01` appended, one gives
      `-01` appended, more leave it alone; the result holds no '~'. */
  lemma NormalizeDateSpec(dateStr: string)
    ensures var t := RemoveChar(dateStr, '~');
      var r := NormalizeDate(dateStr);
      && '~' !in r
      && (Count(t, '-') == 0 ==> r == t + "-01-01")
      && (Count(t, '-') == 1 ==> r == t + "-01")
      && (Count(t, '-') >= 2 ==> r == t)
  {
    var t := RemoveChar(dateStr, '~');
    SplitJoinRoundTrip(t, '-');
    var parts := Split(t, '-');
    if |parts| == 2 {
      assert Join("-", parts) == parts[0] + "-" + parts[1];
    }
    assert '~' !in t;
  }

  /** A normalised date normalises to itself. */
  lemma NormalizeDateIdempotent(dateStr: string)
    ensures NormalizeDate(NormalizeDate(dateStr)) == NormalizeDate(dateStr)
  {
    var t := RemoveChar(dateStr, '~');
    var r := NormalizeDate(dateStr);
    NormalizeDateSpec(dateStr);
    NormalizeDateSpec(r);
    RemoveAbsent(r, '~');
    if Count(t, '-') == 0 {
      CountAppend(t, "-01-01", '-');
    } else if Count(t, '-') == 1 {
      CountAppend(t, "-01", '-');
    }
  }

  lemma DigitsHaveNo(d: string, c: char)
    requires AllDigits(d) && !IsDigit(c)
    ensures c !in d && Count(d, c) == 0
  {
    CountZeroNotIn(d, c);
  }

  /** A year is padded to its first day, with or without a leading '~'. */
  lemma NormalizeDateOfYear(y: string)
    requires IsYear(y)
    ensures NormalizeDate(y) == y + "-01-01"
    ensures NormalizeDate("~" + y) == y + "-01-01"
  {
    DigitsHaveNo(y, '~');
    DigitsHaveNo(y, '-');
    RemoveAbsent(y, '~');
    RemoveLeadingTilde(y);
    NormalizeDateSpec(y);
    NormalizeDateSpec("~" + y);
  }

  /** A month is padded to its first day. */
  lemma NormalizeDateOfYearMonth(ym: string)
    requires IsYearMonth(ym)
    ensures NormalizeDate(ym) == ym + "-01"
  {
    assert ym == ym[..4] + ("-" + ym[5..]);
    DigitsHaveNo(ym[..4], '-');
    DigitsHaveNo(ym[5..], '-');
    DigitsHaveNo(ym[..4], '~');
    DigitsHaveNo(ym[5..], '~');
    CountAppend(ym[..4], "-" + ym[5..], '-');
    assert '~' !in ym;
    RemoveAbsent(ym, '~');
    NormalizeDateSpec(ym);
  }

  lemma RemoveLeadingTilde(s: string)
    ensures RemoveChar("~" + s, '~') == RemoveChar(s, '~')
  {
    assert ("~" + s)[1..] == s;
  }

  lemma CountTwoDashes(d: string)
    requires IsYearMonthDay(d)
    ensures Count(d, '-') >= 2
  {
    assert d == d[..5] + d[5..];
    CountAppend(d[..5], d[5..], '-');
    assert d[..5][4] == '-' && d[5..][2] == '-';
    CountZeroNotIn(d[..5], '-');
    CountZeroNotIn(d[5..], '-');
  }

  lemma FullDateNoTilde(d: string)
    requires IsYearMonthDay(d)
    ensures '~' !in d
  {
    forall i | 0 <= i < |d| ensures d[i] != '~' {
      if i < 4 {
        assert d[i] == d[..7][..4][i];
      } else if 4 < i < 7 {
        assert d[i] == d[..7][5..][i - 5];
      } else if 7 < i {
        assert d[i] == d[8..][i - 8];
      }
    }
  }

  /** A full date is kept, a leading '~' dropped. */
  lemma NormalizeDateOfFullDate(d: string)
    requires IsYearMonthDay(d)
    ensures NormalizeDate(d) == d
    ensures NormalizeDate("~" + d) == d
  {
    CountTwoDashes(d);
    FullDateNoTilde(d);
    RemoveAbsent(d, '~');
    RemoveLeadingTilde(d);
    NormalizeDateSpec(d);
    NormalizeDateSpec("~" + d);
  }

  // ---------------------------------------------------------------- year_bounds

  datatype Bounds = Bounds(start: string, end: string)

  /** `s[:4]`. */
  function Head4(s: string): (r: string)
    ensures r <= s && |r| == if |s| < 4 then |s| else 4
  {
    if |s| <= 4 then s else s[..4]
  }

  /** `year_bounds`: `int()` of the first four characters, printed without padding. */
  function YearBounds(yearStr: string): (r: Result<Bounds>)
    ensures r.Failure? <==> PyInt(Head4(yearStr)).None?
    ensures r.Failure? ==> r.error == ValueError
  {
    match PyInt(Head4(yearStr))
    case None => Failure(ValueError)
    case Some(y) => Success(Bounds(IntToString(y) + "-01-01", IntToString(y) + "-12-31"))
  }

  /** Four leading digits give the first and last day of that year, the year printed as a
      number (so without its leading zeros). */
  lemma YearBoundsOfDigits(yearStr: string)
    requires |yearStr| >= 4 && AllDigits(yearStr[..4])
    ensures YearBounds(yearStr) == Success(Bounds(NatToString(DigitsValue(yearStr[..4])) + "-01-01",
                                                  NatToString(DigitsValue(yearStr[..4])) + "-12-31"))
  {
    var h := yearStr[..4];
    assert Head4(yearStr) == h;
    PyIntOfDigits(h);
    YearBoundsOfValue(yearStr, DigitsValue(h));
  }

  lemma YearBoundsOfValue(yearStr: string, v: nat)
    requires PyInt(Head4(yearStr)) == Some(v)
    ensures YearBounds(yearStr) == Success(Bounds(NatToString(v) + "-01-01", NatToString(v) + "-12-31"))
  {
  }

  /** A four-digit year gives its first and last day. */
  lemma YearBoundsExample(s: string)
    requires s == "1855-.."
    ensures YearBounds(s) == Success(Bounds("1855" + "-01-01", "1855" + "-12-31"))
  {
    assert s[..4] == "1855";
    YearBoundsOfDigits(s);
    YearPrinted("1855");
  }

  /** A year written with a leading zero comes back without it. */
  lemma YearBoundsLeadingZeroExample(s: string)
    requires s == "0855"
    ensures YearBounds(s) == Success(Bounds("855" + "-01-01", "855" + "-12-31"))
  {
    var tail := "855";
    assert s[..4] == "0" + tail;
    DigitsValueLeadingZero(tail);
    assert DigitsValue(s[..4]) == DigitsValue(tail);
    YearBoundsOfDigits(s);
    YearPrinted(tail);
  }

  /** A blank string raises. */
  lemma YearBoundsBlankExample(s: string)
    requires AllSpace(s)
    ensures YearBounds(s) == Failure(ValueError)
  {
    assert Strip(Head4(s)) == [];
  }

  lemma YearPrinted(d: string)
    requires d != [] && AllDigits(d) && (|d| > 1 ==> d[0] != '0')
    ensures NatToString(DigitsValue(d)) + "-01-01" == d + "-01-01"
    ensures NatToString(DigitsValue(d)) + "-12-31" == d + "-12-31"
  {
    NatToStringRoundTrip(d);
  }

  // ---------------------------------------------------------------- period_bounds

  /** `^\d{4}$` */
  predicate IsYear(t: string)
  {
    |t| == 4 && AllDigits(t)
  }

  /** `^\d{4}-\d{2}$` */
  predicate IsYearMonth(t: string)
  {
    |t| == 7 && IsYear(t[..4]) && t[4] == '-' && AllDigits(t[5..])
  }

  /** `^\d{4}-\d{2}-\d{2}$` */
  predicate IsYearMonthDay(t: string)
  {
    |t| == 10 && IsYearMonth(t[..7]) && t[7] == '-' && AllDigits(t[8..])
  }

  predicate IsLeapYear(y: int)
  {
    y % 4 == 0 && (y % 100 != 0 || y % 400 == 0)
  }

  /** `calendar.monthrange(y, m)[1]` under the Gregorian rule. */
  function DaysInMonth(y: int, m: int): (d: int)
    requires 1 <= m <= 12
    ensures 28 <= d <= 31
  {
    if m == 2 then (if IsLeapYear(y) then 29 else 28)
    else if m == 4 || m == 6 || m == 9 || m == 11 then 30
    else 31
  }

  function MonthOf(ym: string): nat
    requires IsYearMonth(ym)
  {
    DigitsValue(ym[5..])
  }

  /** The first and last day of a `YYYY-MM` month; `calendar.monthrange` raises ValueError for
      a month outside 1..12. */
  function MonthBounds(ym: string): Result<Option<Bounds>>
    requires IsYearMonth(ym)
  {
    var y := DigitsValue(ym[..4]);
    var m := MonthOf(ym);
    if m < 1 || m > 12 then Failure(ValueError)
    else
      var prefix := PadZeros(y, 4) + "-" + PadZeros(m, 2) + "-";
      Success(Some(Bounds(prefix + "01", prefix + PadZeros(DaysInMonth(y, m), 2))))
  }

  /** The first and last day of a `YYYY` year. */
  function YearPeriod(yy: string): Result<Option<Bounds>>
    requires IsYear(yy)
  {
    var y := DigitsValue(yy);
    Success(Some(Bounds(PadZeros(y, 4) + "-01-01", PadZeros(y, 4) + "-12-31")))
  }

  /** `period_bounds`: a full date bounds itself, a month or a year its first and last day; a
      longer text falls back to its first seven, then its first four characters; anything
      else has no bounds. */
  function PeriodBounds(s: Option<string>): Result<Option<Bounds>>
  {
    var t := Strip(if s.Some? then s.value else "");
    if IsYearMonthDay(t) then Success(Some(Bounds(t, t)))
    else if IsYearMonth(t) then MonthBounds(t)
    else if IsYear(t) then YearPeriod(t)
    else if |t| >= 7 && IsYearMonth(t[..7]) then MonthBounds(t[..7])
    else if |t| >= 4 && IsYear(t[..4]) then YearPeriod(t[..4])
    else Success(None)
  }

  /** Formatting the parsed month back with padding gives the text of the month back. */
  lemma MonthBoundsSpec(ym: string)
    requires IsYearMonth(ym)
    ensures MonthBounds(ym).Failure? <==> !(1 <= MonthOf(ym) <= 12)
    ensures MonthBounds(ym).Failure? ==> MonthBounds(ym).error == ValueError
    ensures 1 <= MonthOf(ym) <= 12 ==>
      MonthBounds(ym) == Success(Some(Bounds(ym + "-01",
        ym + "-" + FixedDigits(DaysInMonth(DigitsValue(ym[..4]), MonthOf(ym)), 2))))
  {
    if 1 <= MonthOf(ym) <= 12 {
      var y := DigitsValue(ym[..4]);
      var m := MonthOf(ym);
      PadZerosRoundTrip(ym[..4]);
      PadZerosRoundTrip(ym[5..]);
      assert ym == ym[..4] + "-" + ym[5..];
      var days := DaysInMonth(y, m);
      assert Pow10(2) == 100;
      assert PadZeros(days, 2) == FixedDigits(days, 2);
      var prefix := PadZeros(y, 4) + "-" + PadZeros(m, 2) + "-";
      assert prefix == ym + "-";
      assert prefix + "01" == ym + "-01";
    }
  }

  lemma YearPeriodSpec(yy: string)
    requires IsYear(yy)
    ensures YearPeriod(yy) == Success(Some(Bounds(yy + "-01-01", yy + "-12-31")))
  {
    PadZerosRoundTrip(yy);
  }

  /** The three exact forms. */
  lemma PeriodBoundsExact(s: string)
    ensures var t := Strip(s);
      && (IsYearMonthDay(t) ==> PeriodBounds(Some(s)) == Success(Some(Bounds(t, t))))
      && (IsYearMonth(t) ==> PeriodBounds(Some(s)) == MonthBounds(t))
      && (IsYear(t) ==> PeriodBounds(Some(s)) == Success(Some(Bounds(t + "-01-01", t + "-12-31"))))
  {
    var t := Strip(s);
    if IsYear(t) {
      YearPeriodSpec(t);
    }
  }

  /** Longer texts: their first seven characters if they form a month, else their first four
      if they form a year, else no bounds. */
  lemma PeriodBoundsFallback(s: string)
    requires var t := Strip(s); !IsYearMonthDay(t) && !IsYearMonth(t) && !IsYear(t)
    ensures var t := Strip(s);
      && (|t| >= 7 && IsYearMonth(t[..7]) ==> PeriodBounds(Some(s)) == MonthBounds(t[..7]))
      && (!(|t| >= 7 && IsYearMonth(t[..7])) && |t| >= 4 && IsYear(t[..4]) ==>
            PeriodBounds(Some(s)) == Success(Some(Bounds(t[..4] + "-01-01", t[..4] + "-12-31"))))
      && (!(|t| >= 7 && IsYearMonth(t[..7])) && !(|t| >= 4 && IsYear(t[..4])) ==>
            PeriodBounds(Some(s)) == Success(None))
  {
    var t := Strip(s);
    assert Strip(if Some(s).Some? then Some(s).value else "") == t;
    if |t| >= 7 && IsYearMonth(t[..7]) {
      assert PeriodBounds(Some(s)) == MonthBounds(t[..7]);
    } else if |t| >= 4 && IsYear(t[..4]) {
      YearPeriodSpec(t[..4]);
      assert PeriodBounds(Some(s)) == YearPeriod(t[..4]);
    } else {
      assert PeriodBounds(Some(s)) == Success(None);
    }
  }

  /** A stripped text that does not start with a digit has no bounds. */
  lemma PeriodBoundsNotDigit(s: Option<string>)
    requires var t := Strip(if s.Some? then s.value else ""); t == [] || !IsDigit(t[0])
    ensures PeriodBounds(s) == Success(None)
  {
    NoDateShape(Strip(if s.Some? then s.value else ""));
  }

  /** A text that does not start with a digit has none of the date shapes, whole or leading. */
  lemma NoDateShape(t: string)
    requires t == [] || !IsDigit(t[0])
    ensures !IsYearMonthDay(t) && !IsYearMonth(t) && !IsYear(t)
    ensures !(|t| >= 7 && IsYearMonth(t[..7])) && !(|t| >= 4 && IsYear(t[..4]))
  {
    if t != [] {
      assert |t| >= 4 ==> t[..4][0] == t[0];
      assert |t| >= 7 ==> t[..7][..4][0] == t[0];
      assert |t| == 10 ==> t[..7][..4][0] == t[0];
    }
  }

  lemma StripAllSpace(s: string)
    requires AllSpace(s)
    ensures Strip(s) == []
  {
  }

  /** No text, a blank text and an approximate date (a leading '~') have no bounds. */
  lemma PeriodBoundsNone(s: Option<string>)
    requires s.None? || AllSpace(s.value) || (Strip(s.value) != [] && Strip(s.value)[0] == '~')
    ensures PeriodBounds(s) == Success(None)
  {
    if s.None? {
      StripAllSpace("");
    } else if AllSpace(s.value) {
      StripAllSpace(s.value);
    }
    PeriodBoundsNotDigit(s);
  }

  /** The first day of the period is the date `normalize_date` pads the text to. */
  lemma PeriodStartIsNormalizedDate(s: string)
    requires var t := Strip(s); IsYearMonthDay(t) || IsYearMonth(t) || IsYear(t)
    requires PeriodBounds(Some(s)).Success?
    ensures PeriodBounds(Some(s)).value.Some?
    ensures PeriodBounds(Some(s)).value.value.start == NormalizeDate(Strip(s))
  {
    var t := Strip(s);
    PeriodBoundsExact(s);
    if IsYearMonthDay(t) {
      NormalizeDateOfFullDate(t);
    } else if IsYearMonth(t) {
      MonthBoundsSpec(t);
      NormalizeDateOfYearMonth(t);
    } else {
      NormalizeDateOfYear(t);
    }
  }

  /** Whenever bounds come back, the start is not after the end in string order. */
  lemma PeriodBoundsOrdered(s: Option<string>)
    requires PeriodBounds(s).Success? && PeriodBounds(s).value.Some?
    ensures var b := PeriodBounds(s).value.value; LexLe(b.start, b.end)
  {
    var t := Strip(if s.Some? then s.value else "");
    var b := PeriodBounds(s).value.value;
    if IsYearMonthDay(t) {
      LexLeRefl(t);
    } else if IsYearMonth(t) {
      MonthBoundsOrdered(t);
    } else if IsYear(t) {
      YearPeriodOrdered(t);
    } else if |t| >= 7 && IsYearMonth(t[..7]) {
      MonthBoundsOrdered(t[..7]);
    } else {
      YearPeriodOrdered(t[..4]);
    }
  }

  lemma MonthBoundsOrdered(ym: string)
    requires IsYearMonth(ym) && MonthBounds(ym).Success? && MonthBounds(ym).value.Some?
    ensures var b := MonthBounds(ym).value.value; LexLe(b.start, b.end)
  {
    MonthBoundsSpec(ym);
    var b := MonthBounds(ym).value.value;
    var last := FixedDigits(DaysInMonth(DigitsValue(ym[..4]), MonthOf(ym)), 2);
    assert last[0] == '2' || last[0] == '3';
    assert b.start == (ym + "-") + "01" && b.end == (ym + "-") + last;
    assert b.start[..8] == b.end[..8];
    LexLeAt(b.start, b.end, 8);
  }

  lemma YearPeriodOrdered(yy: string)
    requires IsYear(yy)
    ensures var b := YearPeriod(yy).value.value; LexLe(b.start, b.end)
  {
    YearPeriodSpec(yy);
    var b := YearPeriod(yy).value.value;
    assert b.start[..5] == b.end[..5];
    LexLeAt(b.start, b.end, 5);
  }
}
