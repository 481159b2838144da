/**
  * The Python string primitives the modelled code relies on: `str.strip`,
  * `str.replace`, `str.split`/`str.join`, `str.lower` (ASCII part), `int(str)`,
  * `str(int)`, zero-padded formatting and the code-point order that both
  * Python and SQLite use to compare strings.
  */
module Text {
  import opened Wrappers

  /** Python's `str.isspace`, which is also what `\s` matches in a `re` pattern over `str`. */
  predicate IsSpace(c: char) {
    c == ' ' || ('\t' <= c <= '\r') || ('\U{1c}' <= c <= '\U{1f}') || c == '\U{85}' || c == '\U{a0}'
    || c == '\U{1680}' || ('\U{2000}' <= c <= '\U{200a}') || c == '\U{2028}' || c == '\U{2029}'
    || c == '\U{202f}' || c == '\U{205f}' || c == '\U{3000}'
  }

  predicate IsDigit(c: char) { '0' <= c <= '9' }
  predicate IsAsciiUpper(c: char) { 'A' <= c <= 'Z' }
  predicate IsAsciiLetter(c: char) { IsAsciiUpper(c) || 'a' <= c <= 'z' }
  predicate IsAsciiAlnum(c: char) { IsAsciiLetter(c) || IsDigit(c) }

  predicate AllSpace(s: string) { forall i :: 0 <= i < |s| ==> IsSpace(s[i]) }
  predicate AllDigits(s: string) { forall i :: 0 <= i < |s| ==> IsDigit(s[i]) }
  predicate AllAlnum(s: string) { forall i :: 0 <= i < |s| ==> IsAsciiAlnum(s[i]) }

  /** `str.lstrip()`: drops the longest all-whitespace prefix. */
  function LStrip(s: string): (r: string)
    ensures |r| <= |s| && r == s[|s| - |r|..]
    ensures AllSpace(s[..|s| - |r|])
    ensures r == [] || !IsSpace(r[0])
  {
    if s == [] || !IsSpace(s[0]) then s else LStrip(s[1..])
  }

  /** `str.rstrip()`: drops the longest all-whitespace suffix. */
  function RStrip(s: string): (r: string)
    ensures |r| <= |s| && r == s[..|r|]
    ensures AllSpace(s[|r|..])
    ensures r == [] || !IsSpace(r[|r| - 1])
  {
    if s == [] || !IsSpace(s[|s| - 1]) then s
    else
      var t := s[..|s| - 1];
      var r := RStrip(t);
      assert t[..|r|] == s[..|r|];
      assert forall k :: 0 <= k < |s| - |r| ==> s[|r|..][k] == if k < |t| - |r| then t[|r|..][k] else s[|s| - 1];
      r
  }

  /** `str.strip()`. */
  function Strip(s: string): (r: string)
    ensures |r| <= |s|
    ensures r == [] || (!IsSpace(r[0]) && !IsSpace(r[|r| - 1]))
  {
    RStrip(LStrip(s))
  }

  lemma StripOfStripped(s: string)
    requires s == [] || (!IsSpace(s[0]) && !IsSpace(s[|s| - 1]))
    ensures Strip(s) == s
  {
  }

  lemma {:induction false} LStripPadded(p: string, s: string)
    requires AllSpace(p) && (s == [] || !IsSpace(s[0]))
    ensures LStrip(p + s) == s
    decreases |p|
  {
    if p == [] {
      assert p + s == s;
    } else {
      assert (p + s)[0] == p[0];
      assert (p + s)[1..] == p[1..] + s;
      assert AllSpace(p[1..]) by {
        assert forall i :: 0 <= i < |p[1..]| ==> p[1..][i] == p[i + 1];
      }
      LStripPadded(p[1..], s);
    }
  }

  lemma {:induction false} RStripPadded(s: string, p: string)
    requires AllSpace(p) && (s == [] || !IsSpace(s[|s| - 1]))
    ensures RStrip(s + p) == s
    decreases |p|
  {
    if p == [] {
      assert s + p == s;
    } else {
      var v := s + p;
      assert v[|v| - 1] == p[|p| - 1];
      assert v[..|v| - 1] == s + p[..|p| - 1];
      RStripPadded(s, p[..|p| - 1]);
    }
  }

  /** Whitespace around a text that neither starts nor ends with whitespace is what `strip`
      removes. */
  lemma StripPadded(p1: string, s: string, p2: string)
    requires AllSpace(p1) && AllSpace(p2) && s != [] && !IsSpace(s[0]) && !IsSpace(s[|s| - 1])
    ensures Strip(p1 + s + p2) == s
  {
    assert p1 + s + p2 == p1 + (s + p2);
    assert (s + p2)[0] == s[0];
    LStripPadded(p1, s + p2);
    RStripPadded(s, p2);
  }

  /** `str.lower()` on ASCII letters; every other character is left as it is. */
  function LowerChar(c: char): (r: char)
    ensures IsAsciiUpper(c) ==> IsAsciiLetter(r) && !IsAsciiUpper(r)
    ensures !IsAsciiUpper(c) ==> r == c
  {
    if IsAsciiUpper(c) then (c as int + 32) as char else c
  }

  function Lower(s: string): (r: string)
    ensures |r| == |s| && forall i :: 0 <= i < |s| ==> r[i] == LowerChar(s[i])
  {
    seq(|s|, i requires 0 <= i < |s| => LowerChar(s[i]))
  }

  /** `s.replace(pat, rep)`, equivalently `re.sub` with a pattern free of metacharacters:
      leftmost, non-overlapping occurrences are replaced. */
  function ReplaceAll(s: string, pat: string, rep: string): string
    requires pat != []
    decreases |s|
  {
    if s == [] then []
    else if pat <= s then rep + ReplaceAll(s[|pat|..], pat, rep)
    else [s[0]] + ReplaceAll(s[1..], pat, rep)
  }

  /** `s.replace(c, "")` for a single character. */
  function RemoveChar(s: string, c: char): (r: string)
    ensures |r| <= |s|
    ensures forall i :: 0 <= i < |r| ==> r[i] != c
    ensures forall i :: 0 <= i < |r| ==> r[i] in s
  {
    if s == [] then [] else (if s[0] == c then [] else [s[0]]) + RemoveChar(s[1..], c)
  }

  /** `s.replace(c, d)` for single characters. */
  function ReplaceChar(s: string, c: char, d: char): (r: string)
    ensures |r| == |s| && forall i :: 0 <= i < |s| ==> r[i] == if s[i] == c then d else s[i]
  {
    seq(|s|, i requires 0 <= i < |s| => if s[i] == c then d else s[i])
  }

  function Count(s: string, c: char): nat
  {
    if s == [] then 0 else (if s[0] == c then 1 else 0) + Count(s[1..], c)
  }

  lemma {:induction false} CountAppend(a: string, b: string, c: char)
    ensures Count(a + b, c) == Count(a, c) + Count(b, c)
  {
    if a == [] {
      assert a + b == b;
    } else {
      CountAppend(a[1..], b, c);
      assert (a + b)[0] == a[0];
      assert (a + b)[1..] == a[1..] + b;
    }
  }

  /** `s.split(c)` with an explicit one-character separator: never empty, one piece more than
      there are separators, and no piece contains the separator. */
  function Split(s: string, c: char): (r: seq<string>)
    ensures |r| == Count(s, c) + 1
    ensures forall k :: 0 <= k < |r| ==> c !in r[k]
  {
    if s == [] then [[]]
    else if s[0] == c then [[]] + Split(s[1..], c)
    else
      var rest := Split(s[1..], c);
      [[s[0]] + rest[0]] + rest[1..]
  }

  /** `sep.join(parts)`. */
  function Join(sep: string, parts: seq<string>): string
  {
    if parts == [] then []
    else if |parts| == 1 then parts[0]
    else parts[0] + sep + Join(sep, parts[1..])
  }

  /** Joining the pieces of a split with another one-character separator swaps the separator. */
  lemma {:induction false} JoinSplit(s: string, c: char, d: char)
    ensures Join([d], Split(s, c)) == ReplaceChar(s, c, d)
  {
    if s == [] {
    } else if s[0] == c {
      JoinSplit(s[1..], c, d);
      assert ReplaceChar(s, c, d) == [d] + ReplaceChar(s[1..], c, d);
    } else {
      JoinSplit(s[1..], c, d);
      var rest := Split(s[1..], c);
      assert ReplaceChar(s, c, d) == [s[0]] + ReplaceChar(s[1..], c, d);
      if |rest| == 1 {
      } else {
        assert Join([d], [[s[0]] + rest[0]] + rest[1..]) == [s[0]] + rest[0] + [d] + Join([d], rest[1..]);
      }
    }
  }

  /** Split and join with the same separator are inverse. */
  lemma SplitJoinRoundTrip(s: string, c: char)
    ensures Join([c], Split(s, c)) == s
  {
    JoinSplit(s, c, c);
  }

  lemma {:induction false} CountZeroNotIn(s: string, c: char)
    ensures Count(s, c) == 0 <==> c !in s
  {
    if s != [] {
      CountZeroNotIn(s[1..], c);
      assert s == [s[0]] + s[1..];
    }
  }

  function DigitValue(c: char): int { c as int - '0' as int }

  /** The value of a string of decimal digits (0 for the empty string). */
  function DigitsValue(s: string): (v: nat)
    requires AllDigits(s)
  {
    if s == [] then 0 else DigitsValue(s[..|s| - 1]) * 10 + DigitValue(s[|s| - 1])
  }

  function Digit(d: nat): (c: char)
    requires d < 10
    ensures IsDigit(c) && DigitValue(c) == d
  {
    ('0' as int + d) as char
  }

  /** `str(n)` for a natural number. */
  function NatToString(n: nat): (r: string)
    ensures r != [] && AllDigits(r)
    ensures DigitsValue(r) == n
    ensures |r| > 1 ==> r[0] != '0'
  {
    if n < 10 then [Digit(n)]
    else
      var r := NatToString(n / 10) + [Digit(n % 10)];
      assert r[..|r| - 1] == NatToString(n / 10);
      r
  }

  /** `str(i)` for an integer. */
  function IntToString(i: int): string
  {
    if i < 0 then "-" + NatToString(-i) else NatToString(i)
  }

  function Pow10(w: nat): (p: nat)
    ensures p >= 1
  {
    if w == 0 then 1 else 10 * Pow10(w - 1)
  }

  /** The last `w` decimal digits of `n`, with leading zeros. */
  function FixedDigits(n: nat, w: nat): (r: string)
    ensures |r| == w && AllDigits(r)
  {
    if w == 0 then [] else FixedDigits(n / 10, w - 1) + [Digit(n % 10)]
  }

  /** `f"{n:0{w}d}"` for a natural number: at least `w` digits, padded with zeros. */
  function PadZeros(n: nat, w: nat): string
  {
    if n < Pow10(w) then FixedDigits(n, w) else NatToString(n)
  }

  lemma {:induction false} DigitsValueBound(d: string)
    requires AllDigits(d)
    ensures DigitsValue(d) < Pow10(|d|)
  {
    if d != [] {
      DigitsValueBound(d[..|d| - 1]);
    }
  }

  /** Parsing a digit string and formatting it back at its own width gives it back. */
  lemma {:induction false} FixedDigitsRoundTrip(d: string)
    requires AllDigits(d)
    ensures FixedDigits(DigitsValue(d), |d|) == d
  {
    if d != [] {
      var init := d[..|d| - 1];
      FixedDigitsRoundTrip(init);
      var v := DigitsValue(d);
      assert v / 10 == DigitsValue(init) && v % 10 == DigitValue(d[|d| - 1]);
      assert d == init + [d[|d| - 1]];
    }
  }

  lemma {:induction false} DigitsValueLeading(d: string)
    requires d != [] && AllDigits(d)
    ensures DigitsValue(d) >= DigitValue(d[0])
  {
    if |d| > 1 {
      DigitsValueLeading(d[..|d| - 1]);
    }
  }

  /** A leading zero does not change the value. */
  lemma {:induction false} DigitsValueLeadingZero(d: string)
    requires AllDigits(d)
    ensures DigitsValue("0" + d) == DigitsValue(d)
  {
    if d != [] {
      DigitsValueLeadingZero(d[..|d| - 1]);
      assert ("0" + d)[..|d|] == "0" + d[..|d| - 1];
    }
  }

  /** Printing the value of a digit string without a leading zero gives it back. */
  lemma {:induction false} NatToStringRoundTrip(d: string)
    requires d != [] && AllDigits(d) && (|d| > 1 ==> d[0] != '0')
    ensures NatToString(DigitsValue(d)) == d
  {
    var last := d[|d| - 1];
    DigitOfValue(last);
    if |d| > 1 {
      var init := d[..|d| - 1];
      assert AllDigits(init) && init[0] == d[0];
      DigitsValueLeading(init);
      NatToStringRoundTrip(init);
      NatToStringStep(DigitsValue(d), DigitsValue(init), DigitValue(last));
      assert d == init + [last];
    } else {
      assert d == [last];
    }
  }

  lemma DigitOfValue(c: char)
    requires IsDigit(c)
    ensures Digit(DigitValue(c)) == c
  {
  }

  /** Printing a number of two or more digits prints its tenth, then its last digit. */
  lemma NatToStringStep(v: nat, u: nat, b: nat)
    requires u >= 1 && b < 10 && v == u * 10 + b
    ensures NatToString(v) == NatToString(u) + [Digit(b)]
  {
    DivModTen(u, b, v);
  }

  lemma DivModTen(u: int, b: int, v: int)
    requires u >= 0 && 0 <= b < 10 && v == u * 10 + b
    ensures v / 10 == u && v % 10 == b && (u >= 1 ==> v >= 10)
  {
  }

  lemma PadZerosRoundTrip(d: string)
    requires AllDigits(d)
    ensures PadZeros(DigitsValue(d), |d|) == d
  {
    DigitsValueBound(d);
    FixedDigitsRoundTrip(d);
  }

  /** The digits of an integer literal as `int()` accepts them: digits, single underscores between them. */
  predicate IsDecimalLiteral(t: string) {
    && |t| > 0
    && IsDigit(t[0]) && IsDigit(t[|t| - 1])
    && (forall i :: 0 <= i < |t| ==> IsDigit(t[i]) || t[i] == '_')
    && (forall i :: 0 <= i < |t| - 1 ==> !(t[i] == '_' && t[i + 1] == '_'))
  }

  function LiteralValue(t: string): nat
    requires IsDecimalLiteral(t)
  {
    var ds := RemoveChar(t, '_');
    assert AllDigits(ds) by {
      forall i | 0 <= i < |ds| ensures IsDigit(ds[i]) {
        assert ds[i] in t;
      }
    }
    DigitsValue(ds)
  }

  /** Python's `int(s)` on a string (ASCII digits): `None` where it raises ValueError. */
  function PyInt(s: string): (r: Option<int>)
  {
    var t := Strip(s);
    if t == [] then None
    else if t[0] == '-' && IsDecimalLiteral(t[1..]) then Some(-(LiteralValue(t[1..]) as int))
    else if t[0] == '+' && IsDecimalLiteral(t[1..]) then Some(LiteralValue(t[1..]))
    else if IsDecimalLiteral(t) then Some(LiteralValue(t))
    else None
  }

  /** `int()` of a plain digit string is its decimal value. */
  lemma PyIntOfDigits(s: string)
    requires s != [] && AllDigits(s)
    ensures PyInt(s) == Some(DigitsValue(s))
  {
    DigitsStripped(s);
    DigitsAreLiteral(s);
    PyIntOfLiteral(s, s);
    DigitsLiteralValue(s);
  }

  lemma DigitsStripped(s: string)
    requires s != [] && AllDigits(s)
    ensures Strip(s) == s
  {
    assert !IsSpace(s[0]) && !IsSpace(s[|s| - 1]);
    StripOfStripped(s);
  }

  lemma DigitsAreLiteral(s: string)
    requires s != [] && AllDigits(s)
    ensures s[0] != '-' && s[0] != '+' && IsDecimalLiteral(s)
  {
  }

  lemma DigitsLiteralValue(s: string)
    requires s != [] && AllDigits(s) && IsDecimalLiteral(s)
    ensures LiteralValue(s) == DigitsValue(s)
  {
    assert '_' !in s by {
      forall i | 0 <= i < |s| ensures s[i] != '_' {
        assert IsDigit(s[i]);
      }
    }
    RemoveAbsent(s, '_');
  }

  /** A stripped text that is a literal without a sign reads as the literal's value. */
  lemma PyIntOfLiteral(s: string, t: string)
    requires Strip(s) == t && t != [] && t[0] != '-' && t[0] != '+' && IsDecimalLiteral(t)
    ensures PyInt(s) == Some(LiteralValue(t))
  {
  }

  lemma {:induction false} RemoveAbsent(s: string, c: char)
    requires c !in s
    ensures RemoveChar(s, c) == s
  {
    if s != [] {
      assert s[0] != c;
      forall i | 0 <= i < |s| - 1 ensures s[1..][i] != c {
        assert s[1..][i] == s[i + 1];
      }
      RemoveAbsent(s[1..], c);
      assert RemoveChar(s, c) == [s[0]] + RemoveChar(s[1..], c);
      assert s == [s[0]] + s[1..];
    }
  }

  /** `t` occurs somewhere in `s` (SQL `LIKE '%t%'` without wildcards in `t`). */
  predicate IsSubstring(t: string, s: string)
    decreases |s|
  {
    t <= s || (s != [] && IsSubstring(t, s[1..]))
  }

  /** A text shorter than the pattern cannot contain it. */
  lemma {:induction false} ShortTextLacksPattern(t: string, s: string)
    requires |s| < |t|
    ensures !IsSubstring(t, s)
    decreases |s|
  {
    if s != [] {
      ShortTextLacksPattern(t, s[1..]);
    }
  }

  /** String `<=` in Python and in SQLite's BINARY collation: lexicographic on code points
      (UTF-8 byte order and code-point order agree). */
  predicate LexLe(a: string, b: string)
  {
    a == [] || (b != [] && (a[0] < b[0] || (a[0] == b[0] && LexLe(a[1..], b[1..]))))
  }

  lemma {:induction false} LexLeRefl(a: string)
    ensures LexLe(a, a)
  {
    if a != [] {
      LexLeRefl(a[1..]);
    }
  }

  /** Two strings that agree up to a position where the first has the smaller character are ordered. */
  lemma {:induction false} LexLeAt(a: string, b: string, k: nat)
    requires k < |a| && k < |b| && a[..k] == b[..k] && a[k] < b[k]
    ensures LexLe(a, b)
  {
    if k > 0 {
      assert a[0] == a[..k][0] == b[..k][0] == b[0];
      assert a[1..][..k - 1] == a[1..k] == b[1..k] == b[1..][..k - 1];
      LexLeAt(a[1..], b[1..], k - 1);
    }
  }

  lemma {:induction false} LexLePrefix(a: string, b: string)
    requires a <= b
    ensures LexLe(a, b)
  {
    if a != [] {
      LexLePrefix(a[1..], b[1..]);
    }
  }

  /** Any two strings are ordered one way or the other. */
  lemma {:induction false} LexLeTotal(a: string, b: string)
    ensures LexLe(a, b) || LexLe(b, a)
  {
    if a != [] && b != [] && a[0] == b[0] {
      LexLeTotal(a[1..], b[1..]);
    }
  }

  lemma {:induction false} LexLeTrans(a: string, b: string, c: string)
    requires LexLe(a, b) && LexLe(b, c)
    ensures LexLe(a, c)
  {
    if a != [] && a[0] == b[0] && b[0] == c[0] {
      LexLeTrans(a[1..], b[1..], c[1..]);
    }
  }

  lemma {:induction false} LexLeAntisym(a: string, b: string)
    requires LexLe(a, b) && LexLe(b, a)
    ensures a == b
  {
    if a != [] {
      LexLeAntisym(a[1..], b[1..]);
      assert a == [a[0]] + a[1..];
      assert b == [b[0]] + b[1..];
    }
  }
}
