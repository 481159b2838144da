/**
  * `normalize_firstnames` of api/api_utils.py: the clean-up of a comma-separated list of first
  * names. The three regular-expression substitutions it chains are written out as the
  * left-to-right, non-overlapping scans Python's `re.sub` performs.
  */
module Firstnames {
  import opened Wrappers
  import opened Text

  /** The length of the whitespace run `s` starts with (`\s*`, greedy). */
  function SpaceRun(s: string): (n: nat)
    ensures n <= |s| && AllSpace(s[..n]) && (n == |s| || !IsSpace(s[n]))
  {
    if s != [] && IsSpace(s[0]) then
      var n := 1 + SpaceRun(s[1..]);
      assert s[..n] == [s[0]] + s[1..][..n - 1];
      n
    else 0
  }

  /** The length of the comma run `s` starts with (`,+`, greedy, when it is not empty). */
  function CommaRun(s: string): (n: nat)
    ensures n <= |s| && (n == |s| || s[n] != ',')
    ensures forall i :: 0 <= i < n ==> s[i] == ','
  {
    if s != [] && s[0] == ',' then 1 + CommaRun(s[1..]) else 0
  }

  /** Every comma is followed by a space. */
  predicate CommaSpaced(s: string)
  {
    && (s == [] || s[|s| - 1] != ',')
    && forall i, j {:trigger s[i], s[j]} :: 0 <= i < |s| && 0 <= j < |s| && j == i + 1 && s[i] == ',' ==> s[j] == ' '
  }

  /** No two whitespace characters are adjacent. */
  predicate NoDoubleSpace(s: string)
  {
    forall i, j {:trigger s[i], s[j]} :: 0 <= i < |s| && 0 <= j < |s| && j == i + 1 ==> !(IsSpace(s[i]) && IsSpace(s[j]))
  }

  /** At the start of `s` the whitespace run ends in a comma: `\s*,+\s*` matches here. */
  predicate MatchesAt(s: string)
  {
    SpaceRun(s) < |s| && s[SpaceRun(s)] == ','
  }

  /** What follows the match at the start of `s`: its whitespace, commas and whitespace. */
  function AfterMatch(s: string): (rest: string)
    requires MatchesAt(s)
    ensures |rest| < |s|
  {
    var w := SpaceRun(s);
    var tail := s[w + CommaRun(s[w..])..];
    tail[SpaceRun(tail)..]
  }

  /** `re.compile(r'\s*,+\s*').sub(', ', s)`: a match starts wherever the whitespace run ahead
      ends in a comma, and then takes every comma and the whitespace after them. */
  function CommaFix(s: string): string
    decreases |s|
  {
    if s == [] then []
    else if MatchesAt(s) then ", " + CommaFix(AfterMatch(s))
    else [s[0]] + CommaFix(s[1..])
  }

  /** After the comma fix every comma is followed by a space. */
  lemma {:induction false} CommaFixSpaced(s: string)
    ensures CommaSpaced(CommaFix(s))
    decreases |s|
  {
    if s == [] {
    } else if MatchesAt(s) {
      CommaFixSpaced(AfterMatch(s));
      CommaSpacedAfterSeparator(CommaFix(AfterMatch(s)));
    } else {
      assert s[0] != ',';
      CommaFixSpaced(s[1..]);
      CommaSpacedCons(s[0], CommaFix(s[1..]));
    }
  }

  lemma CommaSpacedAfterSeparator(tail: string)
    requires CommaSpaced(tail)
    ensures CommaSpaced(", " + tail)
  {
    CommaSpacedCons(' ', tail);
    CommaSpacedCons(',', [' '] + tail);
    assert ", " + tail == [','] + ([' '] + tail);
  }

  /** `re.sub(r',\s*$', '', s)`: cut at the first comma followed by nothing but whitespace. */
  function FinalCommaCut(s: string): (r: string)
    ensures r <= s
    ensures r == s || (s[|r|] == ',' && AllSpace(s[|r| + 1..]))
    ensures forall p :: 0 <= p < |r| ==> !(s[p] == ',' && AllSpace(s[p + 1..]))
  {
    if s == [] then []
    else if s[0] == ',' && AllSpace(s[1..]) then []
    else
      var r := [s[0]] + FinalCommaCut(s[1..]);
      assert forall p :: 1 <= p < |r| ==> s[p + 1..] == s[1..][p..];
      r
  }

  /** `re.compile(r'\s{2,}').sub(' ', s)`: every run of two or more whitespace characters
      becomes one space; a lone whitespace character is kept. */
  function CollapseSpaces(s: string): (r: string)
    ensures r == [] <==> s == []
    ensures s != [] ==> r[0] == s[0] || (r[0] == ' ' && IsSpace(s[0]))
    ensures NoDoubleSpace(r)
    decreases |s|
  {
    if s == [] then []
    else if |s| >= 2 && IsSpace(s[0]) && IsSpace(s[1]) then
      var tail := CollapseSpaces(s[SpaceRun(s)..]);
      " " + tail
    else
      var tail := CollapseSpaces(s[1..]);
      [s[0]] + tail
  }

  lemma CommaSpacedSuffix(s: string, k: nat)
    requires CommaSpaced(s) && k <= |s|
    ensures CommaSpaced(s[k..])
  {
    var t := s[k..];
    forall i, j | 0 <= i < |t| && 0 <= j < |t| && j == i + 1 && t[i] == ','
      ensures t[j] == ' '
    {
      assert t[i] == s[k + i] && t[j] == s[k + j];
    }
    if t != [] {
      assert t[|t| - 1] == s[|s| - 1];
    }
  }

  /** Putting a character in front keeps the property, provided a comma is followed by a
      space. */
  lemma CommaSpacedCons(c: char, t: string)
    requires CommaSpaced(t) && (c == ',' ==> t != [] && t[0] == ' ')
    ensures CommaSpaced([c] + t)
  {
    var r := [c] + t;
    forall i, j | 0 <= i < |r| && 0 <= j < |r| && j == i + 1 && r[i] == ','
      ensures r[j] == ' '
    {
      if i > 0 {
        assert r[i] == t[i - 1] && r[j] == t[j - 1];
      }
    }
    if t != [] {
      assert r[|r| - 1] == t[|t| - 1];
    }
  }

  /** Collapsing whitespace keeps every comma followed by a space. */
  lemma {:induction false} CollapseKeepsCommaSpaced(s: string)
    requires CommaSpaced(s)
    ensures CommaSpaced(CollapseSpaces(s))
    decreases |s|
  {
    if s == [] {
    } else if |s| >= 2 && IsSpace(s[0]) && IsSpace(s[1]) {
      var n := SpaceRun(s);
      CommaSpacedSuffix(s, n);
      CollapseKeepsCommaSpaced(s[n..]);
      assert CollapseSpaces(s) == [' '] + CollapseSpaces(s[n..]);
      CommaSpacedCons(' ', CollapseSpaces(s[n..]));
    } else {
      CommaSpacedSuffix(s, 1);
      CollapseKeepsCommaSpaced(s[1..]);
      var tail := CollapseSpaces(s[1..]);
      assert CollapseSpaces(s) == [s[0]] + tail;
      if s[0] == ',' {
        assert s[0] == ',' && s[1] == ' ';
        assert s[1..][0] == ' ';
      }
      CommaSpacedCons(s[0], tail);
    }
  }

  /** Cutting the final comma keeps every other comma followed by a space. */
  lemma FinalCutKeepsCommaSpaced(s: string)
    requires CommaSpaced(s)
    ensures CommaSpaced(FinalCommaCut(s))
  {
    var r := FinalCommaCut(s);
    forall i, j | 0 <= i < |r| && 0 <= j < |r| && j == i + 1 && r[i] == ','
      ensures r[j] == ' '
    {
      assert r[i] == s[i] && r[j] == s[j];
    }

  }

  /** `normalize_firstnames`: a missing or empty value is returned as it is; otherwise strip,
      fix the commas, drop a final comma, collapse the whitespace. */
  function NormalizeFirstnames(v: Option<string>): Option<string>
  {
    if v.None? || v.value == "" then v
    else Some(CollapseSpaces(FinalCommaCut(CommaFix(Strip(v.value)))))
  }

  /** The three substitutions applied to a stripped, non-empty value. */
  function CleanUp(s: string): string
  {
    CollapseSpaces(FinalCommaCut(CommaFix(s)))
  }

  lemma CleanUpShape(s: string)
    ensures var r := CleanUp(s);
      CommaSpaced(r) && NoDoubleSpace(r) && (r == [] || r[|r| - 1] != ',')
  {
    var c := CommaFix(s);
    CommaFixSpaced(s);
    FinalCutKeepsCommaSpaced(c);
    CollapseKeepsCommaSpaced(FinalCommaCut(c));
  }

  /** A normalised list has every comma followed by one space (so it never ends with a comma)
      and no two whitespace characters side by side; missing and empty values are kept. */
  lemma NormalizeFirstnamesShape(v: Option<string>)
    ensures v.None? ==> NormalizeFirstnames(v).None?
    ensures v == Some("") ==> NormalizeFirstnames(v) == v
    ensures NormalizeFirstnames(v).Some? ==>
      var r := NormalizeFirstnames(v).value;
      CommaSpaced(r) && NoDoubleSpace(r) && (r == [] || r[|r| - 1] != ',')
  {
    if v.Some? && v.value != "" {
      var r := CleanUp(Strip(v.value));
      assert NormalizeFirstnames(v) == Some(r);
      CleanUpShape(Strip(v.value));
    }
  }

  // ---------------------------------------------------------------- two names

  /** A name: not empty, no whitespace, no comma. */
  predicate IsName(x: string)
  {
    x != [] && forall i :: 0 <= i < |x| ==> !IsSpace(x[i]) && x[i] != ','
  }

  /** A separator: whitespace, one or more commas, whitespace. */
  predicate IsSeparator(w1: string, c: string, w2: string)
  {
    AllSpace(w1) && c != [] && (forall i :: 0 <= i < |c| ==> c[i] == ',') && AllSpace(w2)
  }

  /** A character that starts no match is copied. */
  lemma CommaFixCopies(s: string)
    requires s != [] && !IsSpace(s[0]) && s[0] != ','
    ensures CommaFix(s) == [s[0]] + CommaFix(s[1..])
  {
    assert SpaceRun(s) == 0;
  }

  /** Text without whitespace or commas goes through the comma fix unchanged. */
  lemma HeadTail(x: string, t: string, u: string)
    requires x != []
    ensures x + t == [x[0]] + (x[1..] + t) && x + u == [x[0]] + (x[1..] + u)
  {
    assert x == [x[0]] + x[1..];
  }

  lemma CommaFixCons(c: char, u: string, s: string)
    requires !IsSpace(c) && c != ',' && s == [c] + u
    ensures CommaFix(s) == [c] + CommaFix(u)
  {
    assert s[0] == c && s[1..] == u;
    CommaFixCopies(s);
  }

  lemma {:induction false} CommaFixPlain(x: string, t: string)
    requires forall i :: 0 <= i < |x| ==> !IsSpace(x[i]) && x[i] != ','
    ensures CommaFix(x + t) == x + CommaFix(t)
    decreases |x|
  {
    if x == [] {
      assert x + t == t;
    } else {
      var x1 := x[1..];
      assert forall i :: 0 <= i < |x1| ==> !IsSpace(x1[i]) && x1[i] != ',' by {
        assert forall i :: 0 <= i < |x1| ==> x1[i] == x[i + 1];
      }
      HeadTail(x, t, CommaFix(t));
      CommaFixPlain(x1, t);
      CommaFixCons(x[0], x1 + t, x + t);
    }
  }

  lemma {:induction false} SpaceRunOf(w: string, u: string)
    requires AllSpace(w) && (u == [] || !IsSpace(u[0]))
    ensures SpaceRun(w + u) == |w|
    decreases |w|
  {
    if w == [] {
      assert w + u == u;
    } else {
      assert (w + u)[0] == w[0];
      assert (w + u)[1..] == w[1..] + u;
      assert AllSpace(w[1..]) by {
        assert forall i :: 0 <= i < |w[1..]| ==> w[1..][i] == w[i + 1];
      }
      SpaceRunOf(w[1..], u);
    }
  }

  lemma {:induction false} CommaRunOf(c: string, u: string)
    requires forall i :: 0 <= i < |c| ==> c[i] == ','
    requires u == [] || u[0] != ','
    ensures CommaRun(c + u) == |c|
    decreases |c|
  {
    if c == [] {
      assert c + u == u;
    } else {
      assert (c + u)[0] == c[0];
      assert (c + u)[1..] == c[1..] + u;
      assert forall i :: 0 <= i < |c[1..]| ==> c[1..][i] == c[i + 1];
      CommaRunOf(c[1..], u);
    }
  }

  /** A separator between the text already fixed and what follows becomes ", ". */
  lemma CommaFixSeparator(w1: string, c: string, w2: string, u: string)
    requires IsSeparator(w1, c, w2) && (u == [] || (!IsSpace(u[0]) && (w2 == [] ==> u[0] != ',')))
    ensures CommaFix(w1 + c + w2 + u) == ", " + CommaFix(u)
  {
    var s := w1 + c + w2 + u;
    SeparatorMatch(w1, c, w2, u);
    assert s != [];
  }

  lemma SeparatorMatch(w1: string, c: string, w2: string, u: string)
    requires IsSeparator(w1, c, w2) && (u == [] || (!IsSpace(u[0]) && (w2 == [] ==> u[0] != ',')))
    ensures MatchesAt(w1 + c + w2 + u) && AfterMatch(w1 + c + w2 + u) == u
  {
    var after := c + (w2 + u);
    var s := w1 + after;
    assert w1 + c + w2 + u == s;
    SeparatorRuns(w1, c, w2, u);
    var w := SpaceRun(s);
    assert w == |w1|;
    assert s[w..] == after;
    assert s[w] == ',' by {
      assert s[w] == after[0] == c[0];
    }
    assert MatchesAt(s);
    var cr := CommaRun(s[w..]);
    assert cr == |c|;
    var tail := s[w + cr..];
    assert tail == w2 + u;
    assert SpaceRun(tail) == |w2|;
    assert tail[|w2|..] == u;
    AfterMatchIs(s, w, cr, tail);
  }

  lemma AfterMatchIs(s: string, w: nat, cr: nat, tail: string)
    requires MatchesAt(s)
    requires w == SpaceRun(s) && cr == CommaRun(s[w..]) && tail == s[w + cr..]
    ensures AfterMatch(s) == tail[SpaceRun(tail)..]
  {
  }

  lemma SeparatorRuns(w1: string, c: string, w2: string, u: string)
    requires IsSeparator(w1, c, w2) && (u == [] || (!IsSpace(u[0]) && (w2 == [] ==> u[0] != ',')))
    ensures SpaceRun(w1 + (c + (w2 + u))) == |w1|
    ensures CommaRun(c + (w2 + u)) == |c|
    ensures SpaceRun(w2 + u) == |w2|
  {
    var after := c + (w2 + u);
    assert after[0] == c[0];
    SpaceRunOf(w1, after);
    if w2 != [] {
      assert (w2 + u)[0] == w2[0];
    }
    CommaRunOf(c, w2 + u);
    SpaceRunOf(w2, u);
  }

  lemma NameLastNotSpace(x: string)
    requires IsName(x)
    ensures !IsSpace(x[0]) && !IsSpace(x[|x| - 1]) && x[0] != ','
  {
  }

  lemma CollapseFreeTwo(x: string, y: string)
    requires IsName(x) && IsName(y)
    ensures CollapseSpaces(x + ", " + y) == x + ", " + y
  {
    var s := x + ", " + y;
    forall i, j | 0 <= i < |s| && 0 <= j < |s| && j == i + 1
      ensures !(IsSpace(s[i]) && IsSpace(s[j]))
    {
      if i < |x| {
        assert s[i] == x[i];
      } else if i == |x| {
        assert s[i] == ',';
      } else {
        assert s[j] == y[j - |x| - 2];
      }
    }
    CollapseFree(s);
  }

  /** Text without two adjacent whitespace characters is left alone by the collapse. */
  lemma {:induction false} CollapseFree(s: string)
    requires NoDoubleSpace(s)
    ensures CollapseSpaces(s) == s
  {
    if s != [] {
      var t := s[1..];
      forall i, j | 0 <= i < |t| && 0 <= j < |t| && j == i + 1
        ensures !(IsSpace(t[i]) && IsSpace(t[j]))
      {
        assert t[i] == s[i + 1] && t[j] == s[j + 1];
      }
      CollapseFree(t);
      if |s| >= 2 {
        assert !(IsSpace(s[0]) && IsSpace(s[1]));
      }
      assert s == [s[0]] + t;
    }
  }

  /** The comma fix on two names around a separator, then anything. */
  lemma CommaFixTwo(x: string, w1: string, c: string, w2: string, y: string, u: string)
    requires IsName(x) && IsName(y) && IsSeparator(w1, c, w2)
    ensures CommaFix(x + w1 + c + w2 + y + u) == x + ", " + y + CommaFix(u)
  {
    var yu := y + u;
    assert yu[0] == y[0];
    TwoNamesRegroup(x, w1, c, w2, y, u, CommaFix(u));
    CommaFixSeparator(w1, c, w2, yu);
    CommaFixPlain(x, w1 + c + w2 + yu);
    CommaFixPlain(y, u);
  }

  lemma TwoNamesRegroup(x: string, w1: string, c: string, w2: string, y: string, u: string, f: string)
    ensures x + w1 + c + w2 + y + u == x + (w1 + c + w2 + (y + u))
    ensures x + (", " + (y + f)) == x + ", " + y + f
  {
  }

  /** Only the comma between the names could be cut, and a name follows it. */
  lemma FinalCutTwo(x: string, y: string)
    requires IsName(x) && IsName(y)
    ensures FinalCommaCut(x + ", " + y) == x + ", " + y
  {
    var s := x + ", " + y;
    NoCutInTwo(x, y, []);
    assert s + [] == s;
    var r := FinalCommaCut(s);
    assert r != s ==> |r| < |s|;
  }

  /** No comma up to the end of the second name is followed by nothing but whitespace. */
  lemma NoCutInTwo(x: string, y: string, u: string)
    requires IsName(x) && IsName(y)
    ensures var s := x + ", " + y + u;
      forall p :: 0 <= p < |x| + 2 + |y| ==> !(s[p] == ',' && AllSpace(s[p + 1..]))
  {
    var s := x + ", " + y + u;
    forall p | 0 <= p < |x| + 2 + |y| ensures !(s[p] == ',' && AllSpace(s[p + 1..])) {
      if p < |x| {
        assert s[p] == x[p];
      } else if p == |x| {
        assert s[p + 1..][1] == y[0];
      } else if p == |x| + 1 {
        assert s[p] == ' ';
      } else {
        assert s[p] == y[p - |x| - 2];
      }
    }
  }

  /** A trailing ", " after two names is cut. */
  lemma FinalCutTwoTrailing(x: string, y: string)
    requires IsName(x) && IsName(y)
    ensures FinalCommaCut(x + ", " + y + ", ") == x + ", " + y
  {
    var s := x + ", " + y + ", ";
    var r := FinalCommaCut(s);
    var last := |s| - 2;
    assert s[last] == ',' && s[last + 1..] == " ";
    assert AllSpace(s[last + 1..]);
    assert r != s;
    NoCutInTwo(x, y, ", ");
    assert |r| >= last;
    assert s[last + 1] == ' ';
    assert |r| == last;
    assert s[..last] == x + ", " + y;
  }

  /** Two names around any separator, with any whitespace around them, give
      `"<first>, <second>"`. */
  lemma NormalizeTwoNames(p1: string, x: string, w1: string, c: string, w2: string, y: string, p2: string)
    requires AllSpace(p1) && AllSpace(p2) && IsName(x) && IsName(y) && IsSeparator(w1, c, w2)
    ensures NormalizeFirstnames(Some(p1 + x + w1 + c + w2 + y + p2)) == Some(x + ", " + y)
  {
    var inner := x + w1 + c + w2 + y;
    Regroup(p1, x, w1 + c + w2, y, p2);
    assert w1 + c + w2 + y == (w1 + c + w2) + y;
    assert inner[0] == x[0] && inner[|inner| - 1] == y[|y| - 1];
    PaddedNormalize(p1, inner, p2, p1 + x + w1 + c + w2 + y + p2);
    CleanUpTwo(x, w1, c, w2, y, inner);
  }

  /** Regrouping the concatenation of padded text. */
  lemma Regroup(p1: string, x: string, m: string, y: string, p2: string)
    ensures p1 + x + m + y + p2 == p1 + (x + m + y) + p2
  {
  }

  /** A value padded by whitespace around a text that starts and ends with neither is
      cleaned up from that text. */
  lemma PaddedNormalize(p1: string, inner: string, p2: string, v: string)
    requires AllSpace(p1) && AllSpace(p2) && inner != [] && !IsSpace(inner[0]) && !IsSpace(inner[|inner| - 1])
    requires v == p1 + inner + p2
    ensures NormalizeFirstnames(Some(v)) == Some(CleanUp(inner))
  {
    StripPadded(p1, inner, p2);
  }

  lemma CleanUpTwo(x: string, w1: string, c: string, w2: string, y: string, inner: string)
    requires IsName(x) && IsName(y) && IsSeparator(w1, c, w2) && inner == x + w1 + c + w2 + y
    ensures CleanUp(inner) == x + ", " + y
  {
    CommaFixTwo(x, w1, c, w2, y, []);
    EmptyTail(inner, x + ", " + y);
    FinalCutTwo(x, y);
    CollapseFreeTwo(x, y);
  }

  lemma EmptyTail(s: string, t: string)
    ensures s + [] == s && t + [] == t
  {
  }

  lemma CommaFixFinalSeparator(w: string, c: string)
    requires IsSeparator(w, c, [])
    ensures CommaFix(w + c) == ", "
  {
    assert w + c + [] + [] == w + c;
    CommaFixSeparator(w, c, [], []);
  }

  /** Two names, a final comma, any whitespace around: the final comma goes. */
  lemma NormalizeTwoNamesFinalComma(p1: string, x: string, w1: string, c: string, w2: string, y: string,
                                    w3: string, c3: string, p2: string)
    requires AllSpace(p1) && AllSpace(p2) && IsName(x) && IsName(y) && IsSeparator(w1, c, w2)
    requires IsSeparator(w3, c3, [])
    ensures NormalizeFirstnames(Some(p1 + x + w1 + c + w2 + y + w3 + c3 + p2)) == Some(x + ", " + y)
  {
    var inner := x + w1 + c + w2 + y + (w3 + c3);
    Regroup(p1, x, w1 + c + w2 + y + w3, c3, p2);
    assert x + w1 + c + w2 + y + (w3 + c3) == x + (w1 + c + w2 + y + w3) + c3;
    assert inner[0] == x[0] && inner[|inner| - 1] == c3[|c3| - 1];
    PaddedNormalize(p1, inner, p2, p1 + x + w1 + c + w2 + y + w3 + c3 + p2);
    CleanUpTwoFinalComma(x, w1, c, w2, y, w3, c3, inner);
  }

  lemma CleanUpTwoFinalComma(x: string, w1: string, c: string, w2: string, y: string, w3: string, c3: string,
                             inner: string)
    requires IsName(x) && IsName(y) && IsSeparator(w1, c, w2) && IsSeparator(w3, c3, [])
    requires inner == x + w1 + c + w2 + y + (w3 + c3)
    ensures CleanUp(inner) == x + ", " + y
  {
    CommaFixTwo(x, w1, c, w2, y, w3 + c3);
    CommaFixFinalSeparator(w3, c3);
    FinalCutTwoTrailing(x, y);
    CollapseFreeTwo(x, y);
  }

  // ---------------------------------------------------------------- the documented examples

  lemma AugusteTitusNames()
    ensures IsName("Auguste") && IsName("Titus")
  {
  }

  /** Documented example: no space after the comma. */
  lemma NormalizeFirstnamesExample1(a: string)
    requires a == "  Auguste,Titus  "
    ensures NormalizeFirstnames(Some(a)) == Some("Auguste" + ", " + "Titus")
  {
    AugusteTitusNames();
    assert a == "  " + "Auguste" + "" + "," + "" + "Titus" + "  ";
    NormalizeTwoNames("  ", "Auguste", "", ",", "", "Titus", "  ");
  }

  /** Documented example: spaces around the comma. */
  lemma NormalizeFirstnamesExample2(b: string)
    requires b == "  Auguste ,  Titus  "
    ensures NormalizeFirstnames(Some(b)) == Some("Auguste" + ", " + "Titus")
  {
    AugusteTitusNames();
    assert b == "  " + "Auguste" + " " + "," + "  " + "Titus" + "  ";
    NormalizeTwoNames("  ", "Auguste", " ", ",", "  ", "Titus", "  ");
  }

  /** Documented example: a final comma. */
  lemma NormalizeFirstnamesExample3(c: string)
    requires c == "  Auguste  , Titus, "
    ensures NormalizeFirstnames(Some(c)) == Some("Auguste" + ", " + "Titus")
  {
    AugusteTitusNames();
    assert c == "  " + "Auguste" + "  " + "," + " " + "Titus" + "" + "," + " ";
    NormalizeTwoNamesFinalComma("  ", "Auguste", "  ", ",", " ", "Titus", "", ",", " ");
  }

  // ---------------------------------------------------------------- a doubled final comma

  /** As written, a name followed by ", ," comes out as the name followed by ", ": the final
      separator stays, and normalising that output again changes it. */
  lemma NormalizeFirstnamesDoubledComma(x: string)
    requires IsName(x)
    ensures NormalizeFirstnames(Some(x + ", ,")) == Some(x + ", ")
    ensures NormalizeFirstnames(Some(x + ", ")) == Some(x)
  {
    DoubledCommaOnce(x);
    TrailingCommaSpace(x);
  }

  lemma DoubledCommaOnce(x: string)
    requires IsName(x)
    ensures NormalizeFirstnames(Some(x + ", ,")) == Some(x + ", ")
  {
    var v := x + ", ,";
    assert v[0] == x[0] && v[|v| - 1] == ',';
    StripPadded([], v, []);
    assert [] + v + [] == v;
    DoubledCommaFix(x);
    DoubledCommaCut(x);
    CollapseNameComma(x);
    assert NormalizeFirstnames(Some(v)) == Some(CleanUp(v));
  }

  lemma DoubledCommaFix(x: string)
    requires IsName(x)
    ensures CommaFix(x + ", ,") == x + ", , "
  {
    DoubledCommaAlone(", ,", ",", " ");
    CommaFixPlain(x, ", ,");
  }

  lemma DoubledCommaAlone(s: string, c: string, w: string)
    requires s == ", ," && c == "," && w == " "
    ensures CommaFix(s) == ", , "
  {
    assert IsSeparator([], c, w) && IsSeparator([], c, []);
    assert s == [] + c + w + c;
    CommaFixSeparator([], c, w, c);
    CommaFixFinalSeparator([], c);
    assert [] + c == c;
  }

  lemma DoubledCommaCut(x: string)
    requires IsName(x)
    ensures FinalCommaCut(x + ", , ") == x + ", "
  {
    var fixed := x + ", , ";
    forall p | 0 <= p < |x| + 2 ensures !(fixed[p] == ',' && AllSpace(fixed[p + 1..])) {
      if p < |x| {
        assert fixed[p] == x[p];
      } else if p == |x| {
        assert fixed[p + 1..][1] == ',';
      } else {
        assert fixed[p] == ' ';
      }
    }
    assert fixed[|x| + 2] == ',' && fixed[|x| + 3..] == " ";
    assert fixed[..|x| + 2] == x + ", ";
  }

  lemma CollapseNameComma(x: string)
    requires IsName(x)
    ensures CollapseSpaces(x + ", ") == x + ", "
    ensures CollapseSpaces(x) == x
  {
    var t := x + ", ";
    forall i, j | 0 <= i < |t| && 0 <= j < |t| && j == i + 1
      ensures !(IsSpace(t[i]) && IsSpace(t[j]))
    {
      assert t[i] == if i < |x| then x[i] else ',';
    }
    CollapseFree(t);
    assert NoDoubleSpace(x);
    CollapseFree(x);
  }

  lemma TrailingCommaSpace(x: string)
    requires IsName(x)
    ensures NormalizeFirstnames(Some(x + ", ")) == Some(x)
  {
    TrailingCommaStrip(x, x + ", ", x + ",");
    TrailingCommaFix(x);
    TrailingCommaCut(x);
    CollapseNameComma(x);
  }

  lemma TrailingCommaStrip(x: string, v: string, t: string)
    requires IsName(x) && v == x + ", " && t == x + ","
    ensures Strip(v) == t
  {
    assert [] + t + " " == v;
    assert t[0] == x[0] && t[|t| - 1] == ',';
    StripPadded([], t, " ");
  }

  lemma TrailingCommaFix(x: string)
    requires IsName(x)
    ensures CommaFix(x + ",") == x + ", "
  {
    CommaFixFinalSeparator([], ",");
    assert [] + "," == ",";
    CommaFixPlain(x, ",");
  }

  lemma TrailingCommaCut(x: string)
    requires IsName(x)
    ensures FinalCommaCut(x + ", ") == x
  {
    var fixed := x + ", ";
    forall p | 0 <= p < |x| ensures !(fixed[p] == ',' && AllSpace(fixed[p + 1..])) {
      assert fixed[p] == x[p];
    }
    assert fixed[|x|] == ',' && fixed[|x| + 1..] == " ";
    assert fixed[..|x|] == x;
  }

  /** A comma or a whitespace character. */
  predicate IsSeparatorChar(c: char)
  {
    c == ',' || IsSpace(c)
  }

  /** `re.sub(r'[\s,]+$', '', s)`: drop the longest tail of commas and whitespace. */
  function TrimSeparators(s: string): (r: string)
    ensures r <= s
    ensures r == [] || !IsSeparatorChar(r[|r| - 1])
    ensures forall i :: |r| <= i < |s| ==> IsSeparatorChar(s[i])
  {
    if s != [] && IsSeparatorChar(s[|s| - 1]) then TrimSeparators(s[..|s| - 1]) else s
  }

  /** `normalize_firstnames` with the final comma removed however many separators it is
      mixed with: the chain of the source followed by a trim of commas and whitespace. */
  function NormalizeFirstnamesFixed(v: Option<string>): Option<string>
  {
    if v.None? || v.value == "" then v
    else Some(TrimSeparators(CleanUp(Strip(v.value))))
  }

  /** The corrected clean-up ends with neither a comma nor whitespace, and keeps every
      comma followed by one space and no whitespace doubled. */
  lemma NormalizeFirstnamesFixedShape(v: Option<string>)
    ensures NormalizeFirstnamesFixed(v).Some? ==>
      var r := NormalizeFirstnamesFixed(v).value;
      && CommaSpaced(r) && NoDoubleSpace(r)
      && (r == [] || (r[|r| - 1] != ',' && !IsSpace(r[|r| - 1])))
  {
    FixedShapeOf(v, NormalizeFirstnamesFixed(v));
  }

  lemma FixedShapeOf(v: Option<string>, res: Option<string>)
    requires res == NormalizeFirstnamesFixed(v)
    ensures res.Some? ==>
      && CommaSpaced(res.value) && NoDoubleSpace(res.value)
      && (res.value == [] || (res.value[|res.value| - 1] != ',' && !IsSpace(res.value[|res.value| - 1])))
  {
    if v.None? {
      assert res.None?;
    } else if v.value == "" {
      assert res.value == [];
    } else {
      TrimmedCleanUpShape(Strip(v.value), res.value);
    }
  }

  lemma TrimmedCleanUpShape(s: string, r: string)
    requires r == TrimSeparators(CleanUp(s))
    ensures CommaSpaced(r) && NoDoubleSpace(r)
    ensures r == [] || (r[|r| - 1] != ',' && !IsSpace(r[|r| - 1]))
  {
    CleanUpShape(s);
    TrimKeepsShape(CleanUp(s), r);
  }

  /** Trimming the separators off a clean list keeps it clean and leaves a name at its end. */
  lemma TrimKeepsShape(c: string, r: string)
    requires CommaSpaced(c) && NoDoubleSpace(c) && r == TrimSeparators(c)
    ensures CommaSpaced(r) && NoDoubleSpace(r)
    ensures r == [] || (r[|r| - 1] != ',' && !IsSpace(r[|r| - 1]))
  {
    forall i, j | 0 <= i < |r| && 0 <= j < |r| && j == i + 1 && r[i] == ','
      ensures r[j] == ' '
    {
      assert r[i] == c[i] && r[j] == c[j];
    }
    forall i, j | 0 <= i < |r| && 0 <= j < |r| && j == i + 1
      ensures !(IsSpace(r[i]) && IsSpace(r[j]))
    {
      assert r[i] == c[i] && r[j] == c[j];
    }
  }

  /** The correction changes nothing where the source's result already ends with a name. */
  lemma NormalizeFirstnamesFixedAgrees(v: Option<string>)
    requires var r := NormalizeFirstnames(v); r.Some? ==> r.value == [] || !IsSeparatorChar(r.value[|r.value| - 1])
    ensures NormalizeFirstnamesFixed(v) == NormalizeFirstnames(v)
  {
    if v.Some? && v.value != "" {
      var c := CleanUp(Strip(v.value));
      assert NormalizeFirstnames(v) == Some(c);
      TrimKeeps(c);
      assert NormalizeFirstnamesFixed(v) == Some(TrimSeparators(c));
    }
  }

  lemma TrimKeeps(c: string)
    requires c == [] || !IsSeparatorChar(c[|c| - 1])
    ensures TrimSeparators(c) == c
  {
  }

  lemma TrimCommaSpace(x: string)
    requires IsName(x)
    ensures TrimSeparators(x + ", ") == x
  {
    var r := x + ", ";
    var t := x + ",";
    assert r[|r| - 1] == ' ' && IsSeparatorChar(r[|r| - 1]);
    assert r[..|r| - 1] == t;
    assert TrimSeparators(r) == TrimSeparators(t);
    assert t[|t| - 1] == ',' && t[..|t| - 1] == x;
    assert TrimSeparators(t) == TrimSeparators(x);
    assert !IsSeparatorChar(x[|x| - 1]);
  }

  /** The corrected clean-up of a name followed by ", ," is the name alone. */
  lemma NormalizeFirstnamesFixedDoubledComma(x: string)
    requires IsName(x)
    ensures NormalizeFirstnamesFixed(Some(x + ", ,")) == Some(x)
  {
    var v := x + ", ,";
    DoubledCommaOnce(x);
    assert NormalizeFirstnames(Some(v)) == Some(CleanUp(Strip(v)));
    TrimCommaSpace(x);
    assert NormalizeFirstnamesFixed(Some(v)) == Some(TrimSeparators(CleanUp(Strip(v))));
  }

  // ---------------------------------------------------------------- the correction is idempotent

  /** A whitespace character directly before the comma at `k`, if there is one, directly
      follows a comma, so that the comma fix has already taken it into the match of that comma. */
  predicate CommaOkAt(s: string, k: nat)
    requires k < |s|
  {
    k >= 2 && s[k] == ',' && IsSpace(s[k - 1]) ==> s[k - 2] == ','
  }

  /** Whitespace directly before a comma only ever follows a comma (the start excepted). */
  predicate SpaceBeforeCommaAfterComma(s: string)
  {
    forall k: nat :: k < |s| ==> CommaOkAt(s, k)
  }

  /** `s` does not start with a whitespace character followed by a comma. */
  predicate NoLeadingSpaceComma(s: string)
  {
    |s| >= 2 ==> !(IsSpace(s[0]) && s[1] == ',')
  }

  lemma SpaceBeforeCommaSuffix(s: string, n: nat)
    requires SpaceBeforeCommaAfterComma(s) && n <= |s|
    ensures SpaceBeforeCommaAfterComma(s[n..])
  {
    var t := s[n..];
    forall k: nat | k < |t|
      ensures CommaOkAt(t, k)
    {
      assert CommaOkAt(s, n + k);
      if k >= 2 {
        assert t[k] == s[n + k] && t[k - 1] == s[n + k - 1] && t[k - 2] == s[n + k - 2];
      }
    }
  }

  lemma NoDoubleSpaceSuffix(s: string, n: nat)
    requires NoDoubleSpace(s) && n <= |s|
    ensures NoDoubleSpace(s[n..])
  {
    var t := s[n..];
    forall i, j | 0 <= i < |t| && 0 <= j < |t| && j == i + 1
      ensures !(IsSpace(t[i]) && IsSpace(t[j]))
    {
      assert t[i] == s[n + i] && t[j] == s[n + j];
    }
  }

  /** Putting a character in front keeps the property, provided a leading whitespace and comma
      then follow a comma. */
  lemma SpaceBeforeCommaCons(c: char, t: string)
    requires SpaceBeforeCommaAfterComma(t)
    requires |t| >= 2 && IsSpace(t[0]) && t[1] == ',' ==> c == ','
    ensures SpaceBeforeCommaAfterComma([c] + t)
  {
    var r := [c] + t;
    forall k: nat | k < |r|
      ensures CommaOkAt(r, k)
    {
      if k >= 3 {
        assert CommaOkAt(t, k - 1);
        assert r[k] == t[k - 1] && r[k - 1] == t[k - 2] && r[k - 2] == t[k - 3];
      } else if k == 2 {
        assert r[2] == t[1] && r[1] == t[0] && r[0] == c;
      }
    }
  }

  /** The prefixes of a text keep both properties. */
  lemma SpaceBeforeCommaPrefix(s: string, r: string)
    requires SpaceBeforeCommaAfterComma(s) && NoLeadingSpaceComma(s) && r <= s
    ensures SpaceBeforeCommaAfterComma(r) && NoLeadingSpaceComma(r)
  {
    forall k: nat | k < |r|
      ensures CommaOkAt(r, k)
    {
      assert CommaOkAt(s, k);
      if k >= 2 {
        assert r[k] == s[k] && r[k - 1] == s[k - 1] && r[k - 2] == s[k - 2];
      }
    }
    if |r| >= 2 {
      assert r[0] == s[0] && r[1] == s[1];
    }
  }

  /** The comma fix writes a comma where a match starts and copies the character otherwise. */
  lemma CommaFixHead(s: string)
    requires s != []
    ensures CommaFix(s) != [] && CommaFix(s)[0] == if MatchesAt(s) then ',' else s[0]
  {
  }

  /** A whitespace character that starts no match is not followed by a match. */
  lemma SpaceBeforeMatch(s: string)
    requires |s| >= 2 && IsSpace(s[0]) && MatchesAt(s[1..])
    ensures MatchesAt(s)
  {
    assert SpaceRun(s) == 1 + SpaceRun(s[1..]);
    assert s[SpaceRun(s)] == s[1..][SpaceRun(s[1..])];
  }

  /** The comma fix leaves no whitespace before a comma except right after a comma. */
  lemma {:induction false} CommaFixSettled(s: string)
    ensures SpaceBeforeCommaAfterComma(CommaFix(s)) && NoLeadingSpaceComma(CommaFix(s))
    decreases |s|
  {
    if s == [] {
    } else if MatchesAt(s) {
      CommaFixSettled(AfterMatch(s));
      SettledAfterSeparator(s, CommaFix(AfterMatch(s)), CommaFix(s));
    } else {
      CommaFixSettled(s[1..]);
      SettledAfterCopy(s, CommaFix(s[1..]), CommaFix(s));
    }
  }

  lemma SettledAfterSeparator(s: string, t: string, r: string)
    requires MatchesAt(s) && t == CommaFix(AfterMatch(s)) && r == CommaFix(s)
    requires SpaceBeforeCommaAfterComma(t) && NoLeadingSpaceComma(t)
    ensures SpaceBeforeCommaAfterComma(r) && NoLeadingSpaceComma(r)
  {
    SeparatorWritten(s, t, r);
    SettledSeparatorCons(t, r);
  }

  lemma SeparatorWritten(s: string, t: string, r: string)
    requires MatchesAt(s) && t == CommaFix(AfterMatch(s)) && r == CommaFix(s)
    ensures r == [','] + ([' '] + t)
  {
  }

  lemma SettledSeparatorCons(t: string, r: string)
    requires SpaceBeforeCommaAfterComma(t) && NoLeadingSpaceComma(t) && r == [','] + ([' '] + t)
    ensures SpaceBeforeCommaAfterComma(r) && NoLeadingSpaceComma(r)
  {
    SpaceBeforeCommaCons(' ', t);
    SpaceBeforeCommaCons(',', [' '] + t);
  }

  lemma SettledAfterCopy(s: string, t: string, r: string)
    requires s != [] && !MatchesAt(s) && t == CommaFix(s[1..]) && r == CommaFix(s)
    requires SpaceBeforeCommaAfterComma(t) && NoLeadingSpaceComma(t)
    ensures SpaceBeforeCommaAfterComma(r) && NoLeadingSpaceComma(r)
  {
    assert r == [s[0]] + t;
    SpaceBeforeCommaCons(s[0], t);
    if |s| >= 2 && IsSpace(s[0]) {
      CopyHead(s, t);
    }
  }

  /** After a whitespace character that starts no match, the comma fix writes no comma. */
  lemma CopyHead(s: string, t: string)
    requires |s| >= 2 && IsSpace(s[0]) && !MatchesAt(s) && t == CommaFix(s[1..])
    ensures t != [] && t[0] != ','
  {
    CommaFixHead(s[1..]);
    if MatchesAt(s[1..]) {
      SpaceBeforeMatch(s);
    }
    assert s[1..][0] == s[1];
  }

  /** Collapsing whitespace keeps both properties. */
  lemma {:induction false} CollapseSettled(s: string)
    requires SpaceBeforeCommaAfterComma(s)
    ensures SpaceBeforeCommaAfterComma(CollapseSpaces(s))
    ensures NoLeadingSpaceComma(s) ==> NoLeadingSpaceComma(CollapseSpaces(s))
    decreases |s|
  {
    if s == [] {
    } else if |s| >= 2 && IsSpace(s[0]) && IsSpace(s[1]) {
      var n := SpaceRun(s);
      SpaceBeforeCommaSuffix(s, n);
      CollapseSettled(s[n..]);
      CollapseRunSettled(s, n, CollapseSpaces(s[n..]), CollapseSpaces(s));
    } else {
      SpaceBeforeCommaSuffix(s, 1);
      CollapseSettled(s[1..]);
      CollapseCopySettled(s, CollapseSpaces(s[1..]), CollapseSpaces(s));
    }
  }

  /** A run of two or more whitespace characters is followed by neither whitespace nor a
      comma. */
  lemma RunFollower(s: string, n: nat)
    requires |s| >= 2 && IsSpace(s[0]) && IsSpace(s[1]) && n == SpaceRun(s) && SpaceBeforeCommaAfterComma(s)
    ensures 2 <= n && (n < |s| ==> !IsSpace(s[n]) && s[n] != ',')
  {
    assert n == 1 + SpaceRun(s[1..]);
    if n < |s| {
      assert IsSpace(s[n - 2]) && IsSpace(s[n - 1]);
      assert CommaOkAt(s, n);
    }
  }

  lemma CollapseRunSettled(s: string, n: nat, t: string, r: string)
    requires |s| >= 2 && IsSpace(s[0]) && IsSpace(s[1]) && n == SpaceRun(s) && SpaceBeforeCommaAfterComma(s)
    requires t == CollapseSpaces(s[n..]) && r == CollapseSpaces(s) && SpaceBeforeCommaAfterComma(t)
    ensures SpaceBeforeCommaAfterComma(r) && NoLeadingSpaceComma(r)
  {
    RunFollower(s, n);
    assert r == [' '] + t;
    if n < |s| {
      assert s[n..][0] == s[n];
    }
    SpaceBeforeCommaCons(' ', t);
  }

  lemma CollapseCopySettled(s: string, t: string, r: string)
    requires s != [] && !(|s| >= 2 && IsSpace(s[0]) && IsSpace(s[1])) && SpaceBeforeCommaAfterComma(s)
    requires t == CollapseSpaces(s[1..]) && r == CollapseSpaces(s)
    requires SpaceBeforeCommaAfterComma(t) && (NoLeadingSpaceComma(s[1..]) ==> NoLeadingSpaceComma(t))
    ensures SpaceBeforeCommaAfterComma(r) && (NoLeadingSpaceComma(s) ==> NoLeadingSpaceComma(r))
  {
    assert r == [s[0]] + t;
    if |s| >= 2 {
      assert s[1..][0] == s[1];
    }
    if |s| >= 3 {
      assert s[1..][1] == s[2];
      assert CommaOkAt(s, 2);
    }
    SpaceBeforeCommaCons(s[0], t);
  }

  /** Clean text: commas spaced, no doubled whitespace, no stray whitespace before a comma. */
  predicate Settled(s: string)
  {
    CommaSpaced(s) && NoDoubleSpace(s) && SpaceBeforeCommaAfterComma(s) && NoLeadingSpaceComma(s)
  }

  /** Settled text is left alone by the comma fix. */
  lemma {:induction false} CommaFixSettledFixed(s: string)
    requires Settled(s)
    ensures CommaFix(s) == s
    decreases |s|
  {
    if s == [] {
    } else if s[0] == ',' {
      SettledSeparatorStep(s, s[2..]);
      CommaFixSettledFixed(s[2..]);
    } else {
      SettledCopyStep(s, s[1..]);
      CommaFixSettledFixed(s[1..]);
    }
  }

  /** A comma followed by one space is one match, replaced by itself. */
  lemma SettledSeparatorStep(s: string, u: string)
    requires Settled(s) && s != [] && s[0] == ',' && u == s[2..]
    ensures CommaFix(s) == ", " + CommaFix(u) && s == ", " + u && Settled(u)
  {
    assert |s| >= 2 && s[1] == ' ';
    if u != [] {
      assert !(IsSpace(s[1]) && IsSpace(s[2]));
    }
    SpacedCommaMatch(s, u);
    CommaSpacedSuffix(s, 2);
    NoDoubleSpaceSuffix(s, 2);
    SpaceBeforeCommaSuffix(s, 2);
  }

  lemma SpacedCommaMatch(s: string, u: string)
    requires |s| >= 2 && s[0] == ',' && s[1] == ' ' && u == s[2..] && (u == [] || !IsSpace(u[0]))
    ensures CommaFix(s) == ", " + CommaFix(u) && s == ", " + u
  {
    assert SpaceRun(s) == 0 && s[0..] == s;
    assert CommaRun(s[1..]) == 0;
    assert CommaRun(s) == 1;
    assert s[1..] == " " + u;
    SpaceRunOf(" ", u);
  }

  /** Any other character of settled text starts no match, and is copied. */
  lemma SettledCopyStep(s: string, u: string)
    requires Settled(s) && s != [] && s[0] != ',' && u == s[1..]
    ensures CommaFix(s) == [s[0]] + CommaFix(u) && s == [s[0]] + u && Settled(u)
  {
    if IsSpace(s[0]) && |s| >= 2 {
      assert !IsSpace(s[1]) && s[1] != ',';
    }
    if |s| >= 3 {
      assert CommaOkAt(s, 2);
    }
    LoneCharCopied(s, u);
    CommaSpacedSuffix(s, 1);
    NoDoubleSpaceSuffix(s, 1);
    SpaceBeforeCommaSuffix(s, 1);
  }

  lemma LoneCharCopied(s: string, u: string)
    requires s != [] && s[0] != ',' && u == s[1..]
    requires IsSpace(s[0]) && u != [] ==> !IsSpace(u[0]) && u[0] != ','
    ensures CommaFix(s) == [s[0]] + CommaFix(u) && s == [s[0]] + u
  {
    if IsSpace(s[0]) {
      SpaceRunOf([s[0]], u);
      assert [s[0]] + u == s;
    } else {
      assert SpaceRun(s) == 0;
    }
    assert !MatchesAt(s);
  }

  /** Text ending with neither a comma nor whitespace has no final comma to cut. */
  lemma FinalCutNoop(s: string)
    requires s == [] || !IsSeparatorChar(s[|s| - 1])
    ensures FinalCommaCut(s) == s
  {
  }

  /** The corrected clean-up of a stripped, non-empty value, when not empty, starts and ends
      with neither whitespace nor (at its end) a comma, and has no stray whitespace. */
  lemma CorrectedSettled(s: string, r: string)
    requires s != [] && !IsSpace(s[0]) && r == TrimSeparators(CleanUp(s)) && r != []
    ensures Settled(r)
    ensures !IsSpace(r[0]) && !IsSeparatorChar(r[|r| - 1])
  {
    var c := CommaFix(s);
    CommaFixSettled(s);
    CommaFixHead(s);
    var f := FinalCommaCut(c);
    SpaceBeforeCommaPrefix(c, f);
    var k := CollapseSpaces(f);
    CollapseSettled(f);
    assert CleanUp(s) == k;
    TrimmedCleanUpShape(s, r);
    SpaceBeforeCommaPrefix(k, r);
    assert f != [] && f[0] == c[0];
    assert r[0] == k[0];
  }

  /** Normalising with the correction twice gives what normalising once gives. */
  lemma NormalizeFirstnamesFixedIdempotent(v: Option<string>)
    ensures NormalizeFirstnamesFixed(NormalizeFirstnamesFixed(v)) == NormalizeFirstnamesFixed(v)
  {
    if v.Some? && v.value != "" {
      var s := Strip(v.value);
      var r := TrimSeparators(CleanUp(s));
      assert NormalizeFirstnamesFixed(v) == Some(r);
      if r != [] {
        assert s != [];
        CorrectedSettled(s, r);
        StripOfStripped(r);
        CommaFixSettledFixed(r);
        FinalCutNoop(r);
        CollapseFree(r);
        TrimKeeps(r);
        assert NormalizeFirstnamesFixed(Some(r)) == Some(TrimSeparators(CleanUp(Strip(r))));
      }
    }
  }
}
