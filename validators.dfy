/**
  * The date-format check of the admin forms (api/admin/validators.py): a calendar date of
  * ISO 8601 in its complete form `YYYY-MM-DD` or of reduced accuracy `YYYY-MM` / `YYYY`,
  * optionally marked approximate by one leading '~'. The month and the day are checked
  * against their ranges only, not against the calendar.
  */
module Validators {
  import opened Wrappers
  import opened Text
  import opened Records
  import opened Dates

  // ---------------------------------------------------------------- the recogniser

  /** `0[1-9]|1[0-2]` */
  predicate MonthField(s: string)
    requires |s| == 2
  {
    (s[0] == '0' && '1' <= s[1] <= '9') || (s[0] == '1' && '0' <= s[1] <= '2')
  }

  /** `0[1-9]|1\d|2\d|3[01]` */
  predicate DayField(s: string)
    requires |s| == 2
  {
    || (s[0] == '0' && '1' <= s[1] <= '9')
    || ((s[0] == '1' || s[0] == '2') && IsDigit(s[1]))
    || (s[0] == '3' && (s[1] == '0' || s[1] == '1'))
  }

  /** `\d{4}(?:-(?:month)(?:-(?:day))?)?` over the whole text. */
  predicate DateBody(u: string)
  {
    || IsYear(u)
    || (IsYearMonth(u) && MonthField(u[5..7]))
    || (IsYearMonthDay(u) && MonthField(u[5..7]) && DayField(u[8..10]))
  }

  /** `~?` followed by the body. */
  predicate DateCore(v: string)
  {
    DateBody(v) || (|v| > 0 && v[0] == '~' && DateBody(v[1..]))
  }

  /** `is_custom_date_format`: `re.match` of the anchored pattern. Python's `$` also matches
      just before a final newline, so one trailing '\n' is let through. */
  predicate IsCustomDateFormat(value: string)
  {
    DateCore(value) || (|value| > 0 && value[|value| - 1] == '\n' && DateCore(value[..|value| - 1]))
  }

  /** `is_valid_date`: the form field's data is turned into text with `str()` (so a missing
      value is checked as "None") and a failing check raises ValidationError. */
  function IsValidDate(data: Option<string>): (r: Outcome)
    ensures r.Fail? ==> r.error == ValidationError
  {
    if IsCustomDateFormat(PyStr(data)) then Pass else Fail(ValidationError)
  }

  /** The check fails exactly for the texts the recogniser refuses; an empty field fails. */
  lemma IsValidDateSpec(data: Option<string>)
    ensures IsValidDate(data).Fail? <==> !IsCustomDateFormat(PyStr(data))
    ensures data.None? ==> IsValidDate(data) == Fail(ValidationError)
  {
    if data.None? {
      assert !AllDigits("None") by { assert !IsDigit("None"[0]); }
    }
  }

  // ---------------------------------------------------------------- the fields as numbers

  lemma TwoDigitsValue(s: string)
    requires |s| == 2 && AllDigits(s)
    ensures DigitsValue(s) == DigitValue(s[0]) * 10 + DigitValue(s[1])
  {
    assert s[..1][..0] == [];
    assert s[..1] == [s[0]];
    assert DigitsValue(s[..1]) == DigitValue(s[0]);
  }

  /** The month alternatives accept exactly the two-digit numbers 1 to 12. */
  lemma MonthFieldValue(s: string)
    requires |s| == 2
    ensures MonthField(s) <==> AllDigits(s) && 1 <= DigitsValue(s) <= 12
  {
    if AllDigits(s) {
      TwoDigitsValue(s);
    }
  }

  /** The day alternatives accept exactly the two-digit numbers 1 to 31. */
  lemma DayFieldValue(s: string)
    requires |s| == 2
    ensures DayField(s) <==> AllDigits(s) && 1 <= DigitsValue(s) <= 31
  {
    if AllDigits(s) {
      TwoDigitsValue(s);
    }
  }

  lemma {:induction false} FixedDigitsValue(n: nat, w: nat)
    requires n < Pow10(w)
    ensures DigitsValue(FixedDigits(n, w)) == n
  {
    if w > 0 {
      assert n / 10 < Pow10(w - 1);
      FixedDigitsValue(n / 10, w - 1);
      var r := FixedDigits(n, w);
      assert r[..|r| - 1] == FixedDigits(n / 10, w - 1);
    }
  }

  // ---------------------------------------------------------------- an independent description

  /** A date the format describes: approximate or not, a year, and optionally a month and,
      after a month, a day. */
  datatype PartialDate = PartialDate(approximate: bool, year: nat, month: Option<nat>, day: Option<nat>)

  predicate ValidPartialDate(d: PartialDate)
  {
    && d.year < 10000
    && (d.month.Some? ==> 1 <= d.month.value <= 12)
    && (d.day.Some? ==> d.month.Some? && 1 <= d.day.value <= 31)
  }

  function Field(x: Option<nat>): string
  {
    if x.Some? then "-" + FixedDigits(x.value, 2) else ""
  }

  /** The text of a partial date: `~` if approximate, four year digits, two-digit fields. */
  function FormatDate(d: PartialDate): (r: string)
    ensures |r| > 0
  {
    (if d.approximate then "~" else "") + FixedDigits(d.year, 4) + Field(d.month) + Field(d.day)
  }

  /** Reading the fields of an accepted body back as numbers. */
  function ParseBody(u: string): (d: PartialDate)
    requires DateBody(u)
    ensures !d.approximate
  {
    assert IsYear(u[..4]) by {
      if |u| == 10 {
        assert u[..4] == u[..7][..4];
      }
    }
    var y := DigitsValue(u[..4]);
    if IsYear(u) then PartialDate(false, y, None, None)
    else if |u| == 7 then PartialDate(false, y, Some(DigitsValue(u[5..7])), None)
    else PartialDate(false, y, Some(DigitsValue(u[5..7])), Some(DigitsValue(u[8..10])))
  }

  /** The digit fields of an accepted body, formatted back, give the body. */
  lemma ParseBodyRoundTrip(u: string)
    requires DateBody(u)
    ensures ValidPartialDate(ParseBody(u)) && FormatDate(ParseBody(u)) == u
  {
    var yy := u[..4];
    assert |u| >= 7 ==> yy == u[..7][..4];
    FixedDigitsRoundTrip(yy);
    DigitsValueBound(yy);
    if IsYear(u) {
      assert yy == u;
    } else if |u| == 7 {
      MonthRoundTrip(u);
    } else {
      DayRoundTrip(u);
    }
  }

  lemma MonthRoundTrip(u: string)
    requires |u| == 7 && IsYearMonth(u) && MonthField(u[5..7])
    ensures var d := ParseBody(u);
      ValidPartialDate(d) && FormatDate(d) == FixedDigits(d.year, 4) + "-" + u[5..7]
  {
    DigitsValueBound(u[..4]);
    assert Pow10(4) == 10000;
    MonthFieldValue(u[5..7]);
    FixedDigitsRoundTrip(u[5..7]);
    var d := ParseBody(u);
    assert Field(d.month) == "-" + u[5..7];
    assert Field(d.day) == "";
  }

  lemma DayRoundTrip(u: string)
    requires IsYearMonthDay(u) && MonthField(u[5..7]) && DayField(u[8..10])
    ensures var d := ParseBody(u);
      ValidPartialDate(d) && FormatDate(d) == FixedDigits(d.year, 4) + "-" + u[5..7] + "-" + u[8..10]
  {
    assert u[..4] == u[..7][..4];
    DigitsValueBound(u[..4]);
    assert Pow10(4) == 10000;
    MonthFieldValue(u[5..7]);
    FixedDigitsRoundTrip(u[5..7]);
    DayFieldValue(u[8..10]);
    FixedDigitsRoundTrip(u[8..10]);
    var d := ParseBody(u);
    assert Field(d.month) == "-" + u[5..7];
    assert Field(d.day) == "-" + u[8..10];
  }

  /** Every well-formed partial date prints as a text the body pattern accepts. */
  lemma FormatBodyAccepted(d: PartialDate)
    requires ValidPartialDate(d) && !d.approximate
    ensures DateBody(FormatDate(d))
  {
    var u := FormatDate(d);
    var yy := FixedDigits(d.year, 4);
    assert Pow10(2) == 100;
    if d.month.Some? {
      var mm := FixedDigits(d.month.value, 2);
      FixedDigitsValue(d.month.value, 2);
      MonthFieldValue(mm);
      if d.day.Some? {
        var dd := FixedDigits(d.day.value, 2);
        FixedDigitsValue(d.day.value, 2);
        DayFieldValue(dd);
        assert u == yy + "-" + mm + "-" + dd;
        DayBodyShape(yy, mm, dd, u);
      } else {
        assert u == yy + "-" + mm;
        MonthBodyShape(yy, mm, u);
      }
    } else {
      assert u == yy;
    }
  }

  lemma MonthBodyShape(yy: string, mm: string, u: string)
    requires IsYear(yy) && |mm| == 2 && AllDigits(mm) && MonthField(mm) && u == yy + "-" + mm
    ensures IsYearMonth(u) && u[5..7] == mm && DateBody(u)
  {
    assert u[..4] == yy && u[4] == '-' && u[5..] == mm && u[5..7] == mm;
  }

  lemma DayBodyShape(yy: string, mm: string, dd: string, u: string)
    requires IsYear(yy) && |mm| == 2 && AllDigits(mm) && MonthField(mm)
    requires |dd| == 2 && AllDigits(dd) && DayField(dd) && u == yy + "-" + mm + "-" + dd
    ensures DateBody(u)
  {
    assert u[..7] == yy + "-" + mm;
    MonthBodyShape(yy, mm, u[..7]);
    assert u[5..7] == mm && u[7] == '-' && u[8..] == dd && u[8..10] == dd;
  }

  /** Completeness: the recogniser accepts the text of every well-formed partial date, with
      or without one trailing newline. */
  lemma FormatDateAccepted(d: PartialDate)
    requires ValidPartialDate(d)
    ensures IsCustomDateFormat(FormatDate(d))
    ensures IsCustomDateFormat(FormatDate(d) + "\n")
  {
    var plain := d.(approximate := false);
    FormatBodyAccepted(plain);
    if d.approximate {
      FormatApproximate(d);
      ApproximateCore(FormatDate(d), FormatDate(plain));
    } else {
      assert d == plain;
    }
    CoreAccepted(FormatDate(d));
  }

  lemma FormatApproximate(d: PartialDate)
    requires d.approximate
    ensures FormatDate(d) == "~" + FormatDate(d.(approximate := false))
  {
    var rest := FixedDigits(d.year, 4) + Field(d.month) + Field(d.day);
    assert FormatDate(d) == "~" + rest;
    assert FormatDate(d.(approximate := false)) == "" + rest;
    assert "" + rest == rest;
  }

  lemma ApproximateCore(v: string, u: string)
    requires DateBody(u) && v == "~" + u
    ensures DateCore(v)
  {
    assert v[1..] == u;
  }

  /** A core is accepted alone and followed by one newline. */
  lemma CoreAccepted(v: string)
    requires DateCore(v)
    ensures IsCustomDateFormat(v) && IsCustomDateFormat(v + "\n")
  {
    assert (v + "\n")[..|v + "\n"| - 1] == v;
  }

  /** Soundness: every accepted text is the text of a well-formed partial date, possibly
      followed by one newline. */
  function ParseDate(value: string): (d: PartialDate)
    requires IsCustomDateFormat(value)
    ensures ValidPartialDate(d)
    ensures value == FormatDate(d) || value == FormatDate(d) + "\n"
  {
    var core := CoreText(value);
    if DateBody(core) then
      ParseBodyRoundTrip(core);
      ParseBody(core)
    else
      ApproximateRoundTrip(core);
      ParseBody(core[1..]).(approximate := true)
  }

  /** An approximate core is '~' followed by a body that reads back. */
  lemma ApproximateRoundTrip(core: string)
    requires DateCore(core) && !DateBody(core)
    ensures |core| > 0 && DateBody(core[1..])
    ensures var d := ParseBody(core[1..]).(approximate := true); ValidPartialDate(d) && FormatDate(d) == core
  {
    var u := core[1..];
    ParseBodyRoundTrip(u);
    var b := ParseBody(u);
    assert FormatDate(b) == FixedDigits(b.year, 4) + Field(b.month) + Field(b.day);
    assert core == "~" + u;
  }

  /** Accepted texts are exactly the printed partial dates (with an optional final newline). */
  lemma IsCustomDateFormatIff(value: string)
    ensures IsCustomDateFormat(value) <==>
      exists d :: ValidPartialDate(d) && (value == FormatDate(d) || value == FormatDate(d) + "\n")
  {
    if IsCustomDateFormat(value) {
      var d := ParseDate(value);
      assert ValidPartialDate(d);
    }
    forall d | ValidPartialDate(d) && (value == FormatDate(d) || value == FormatDate(d) + "\n")
      ensures IsCustomDateFormat(value)
    {
      FormatDateAccepted(d);
    }
  }

  // ---------------------------------------------------------------- agreement with period_bounds

  function CoreText(value: string): (c: string)
    requires IsCustomDateFormat(value)
    ensures DateCore(c) && (value == c || value == c + "\n")
  {
    if DateCore(value) then value
    else
      assert value == value[..|value| - 1] + "\n";
      value[..|value| - 1]
  }

  /** `str.strip` removes the newline the recogniser tolerates and nothing else. */
  lemma StripAccepted(value: string)
    requires IsCustomDateFormat(value)
    ensures Strip(value) == CoreText(value)
  {
    var c := CoreText(value);
    assert c[|c| - 1] != '\n' && !IsSpace(c[|c| - 1]) by {
      if DateBody(c) {
        assert IsDigit(c[|c| - 1]);
      } else {
        assert c[1..][|c| - 2] == c[|c| - 1];
        assert IsDigit(c[1..][|c| - 2]);
      }
    }
    if value == c {
      StripOfStripped(c);
    } else {
      StripPadded("", c, "\n");
      assert "" + c + "\n" == value;
    }
  }

  /** An accepted date that is not approximate always has bounds: `period_bounds` never raises
      on it, because the recogniser already rules out a month outside 01..12. */
  lemma AcceptedExactDateHasBounds(value: string)
    requires IsCustomDateFormat(value) && value[0] != '~'
    ensures PeriodBounds(Some(value)).Success? && PeriodBounds(Some(value)).value.Some?
  {
    var c := CoreText(value);
    StripAccepted(value);
    assert c[0] == value[0];
    assert DateBody(c);
    PeriodBoundsExact(value);
    if IsYearMonth(c) && !IsYearMonthDay(c) {
      MonthFieldValue(c[5..7]);
      MonthBoundsSpec(c);
    }
  }

  /** An accepted approximate date has no bounds at all. */
  lemma AcceptedApproximateHasNoBounds(value: string)
    requires IsCustomDateFormat(value) && value[0] == '~'
    ensures PeriodBounds(Some(value)) == Success(None)
  {
    var c := CoreText(value);
    StripAccepted(value);
    assert c[0] == value[0];
    PeriodBoundsNone(Some(value));
  }

  // ---------------------------------------------------------------- documented cases

  /** No calendar check: the 31st of February passes the form. */
  lemma AcceptsImpossibleDay(v: string)
    requires v == "1850-02-31"
    ensures IsCustomDateFormat(v) && IsValidDate(Some(v)) == Pass
  {
    assert IsYearMonthDay(v);
  }

  lemma AcceptsPartialForms(y: string, ym: string, approx: string, nl: string)
    requires y == "1850" && ym == "1850-12" && approx == "~1850-12-01" && nl == "1850\n"
    ensures IsCustomDateFormat(y) && IsCustomDateFormat(ym) && IsCustomDateFormat(approx)
    ensures IsCustomDateFormat(nl)
  {
    assert IsYear(y);
    assert IsYearMonth(ym);
    var body := approx[1..];
    assert body == "1850-12-01";
    assert body[..7] == ym && body[5..7] == "12" && body[8..10] == "01" && body[8..] == "01";
    assert nl[..4] == y;
  }

  lemma RejectsMalformed(a: string, b: string, c: string, e: string)
    requires a == "1850-1-1" && b == "18500" && c == "~~1850" && e == ""
    ensures !IsCustomDateFormat(a) && !IsCustomDateFormat(b)
    ensures !IsCustomDateFormat(c) && !IsCustomDateFormat(e)
  {
    assert c[1..] == "~1850" && !IsDigit(c[1..][0]);
    assert c[..|c| - 1] == "~~185";
    assert !IsDigit(c[0]);
  }

  /** Month 13 and day 32 are refused. */
  lemma RejectsOutOfRange(m: string, d: string)
    requires m == "1850-13" && d == "1850-12-32"
    ensures !IsCustomDateFormat(m) && !IsCustomDateFormat(d)
  {
    assert m[5..7] == "13";
    assert d[8..10] == "32";
  }
}
