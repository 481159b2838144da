/**
  * Rich-text clean-up and enumeration-key sanitising of api/models/models.py.
  */
module Markup {
  import opened Text

  /** The empty paragraph the rich-text editor emits for a blank line. */
  const EmptyParagraph: string := "<p><br></p>"
  /** What it is rewritten to. */
  const LineBreak: string := "<br />"

  /** `correct_br_markup_quill`: every empty paragraph becomes a line break. */
  function CorrectBrMarkupQuill(html: string): string
  {
    ReplaceAll(html, EmptyParagraph, LineBreak)
  }

  /** A proper suffix of the pattern that appears at the head of a corrected text already
      appeared at the head of the text: a line break never starts such a suffix. */
  lemma {:induction false} SuffixSurvives(t: string, j: nat)
    requires 1 <= j < |EmptyParagraph|
    requires EmptyParagraph[j..] <= CorrectBrMarkupQuill(t)
    ensures EmptyParagraph[j..] <= t
    decreases |EmptyParagraph| - j
  {
    var p := EmptyParagraph;
    var r := CorrectBrMarkupQuill(t);
    if t == [] {
    } else if p <= t {
      LineBreakStartsNoSuffix(j, CorrectBrMarkupQuill(t[|p|..]));
      assert false;
    } else {
      assert r == [t[0]] + CorrectBrMarkupQuill(t[1..]);
      if j + 1 < |p| {
        assert p[j + 1..] <= CorrectBrMarkupQuill(t[1..]) by {
          assert p[j + 1..] == p[j..][1..];
        }
        SuffixSurvives(t[1..], j + 1);
        assert p[j..] == [p[j]] + p[j + 1..];
      }
    }
  }

  /** No proper suffix of the pattern starts a text that starts with a line break. */
  lemma LineBreakStartsNoSuffix(j: nat, x: string)
    requires 1 <= j < |EmptyParagraph|
    ensures !(EmptyParagraph[j..] <= LineBreak + x)
  {
    var u := LineBreak + x;
    if j == 3 {
      assert EmptyParagraph[j..][3] != u[3];
    } else if j == 7 {
      assert EmptyParagraph[j..][1] != u[1];
    } else {
      assert EmptyParagraph[j..][0] != u[0];
    }
  }

  /** The corrected text contains no empty paragraph any more. */
  lemma {:induction false} NoEmptyParagraphLeft(s: string)
    ensures !IsSubstring(EmptyParagraph, CorrectBrMarkupQuill(s))
    decreases |s|
  {
    var p := EmptyParagraph;
    var r := CorrectBrMarkupQuill(s);
    if s == [] {
      assert r == [];
    } else if p <= s {
      var rest := CorrectBrMarkupQuill(s[|p|..]);
      NoEmptyParagraphLeft(s[|p|..]);
      assert r == LineBreak + rest;
      NotInsideLineBreak(rest);
    } else {
      var rest := CorrectBrMarkupQuill(s[1..]);
      NoEmptyParagraphLeft(s[1..]);
      assert r == [s[0]] + rest;
      if p <= r {
        assert p[1..] <= rest;
        SuffixSurvives(s[1..], 1);
        assert false;
      }
      assert r[1..] == rest;
    }
  }

  /** A pattern that starts at none of the first `k` positions and occurs nowhere after
      them does not occur. */
  lemma {:induction false} NotSubstringFrom(t: string, u: string, k: nat)
    requires k <= |u|
    requires forall i :: 0 <= i < k ==> !(t <= u[i..])
    requires !IsSubstring(t, u[k..])
    ensures !IsSubstring(t, u)
  {
    if k > 0 {
      forall i | 0 <= i < k - 1 ensures !(t <= u[1..][i..]) {
        assert u[1..][i..] == u[i + 1..];
      }
      assert u[1..][k - 1..] == u[k..];
      NotSubstringFrom(t, u[1..], k - 1);
      assert u[0..] == u;
    }
  }

  /** Prefixing a line break to a text without the pattern does not create one. */
  lemma NotInsideLineBreak(rest: string)
    requires !IsSubstring(EmptyParagraph, rest)
    ensures !IsSubstring(EmptyParagraph, LineBreak + rest)
  {
    var u := LineBreak + rest;
    assert u[6..] == rest;
    forall i | 0 <= i < 6 ensures !(EmptyParagraph <= u[i..]) {
      assert u[i..][0] == LineBreak[i];
      if i == 0 {
        assert u[i..][1] != EmptyParagraph[1];
      } else {
        assert u[i..][0] != EmptyParagraph[0];
      }
    }
    NotSubstringFrom(EmptyParagraph, u, 6);
  }

  /** A text without an empty paragraph comes back unchanged. */
  lemma {:induction false} CorrectWithoutPattern(s: string)
    requires !IsSubstring(EmptyParagraph, s)
    ensures CorrectBrMarkupQuill(s) == s
    decreases |s|
  {
    if s != [] {
      CorrectWithoutPattern(s[1..]);
    }
  }

  /** Correcting twice is correcting once. */
  lemma CorrectIdempotent(s: string)
    ensures CorrectBrMarkupQuill(CorrectBrMarkupQuill(s)) == CorrectBrMarkupQuill(s)
  {
    NoEmptyParagraphLeft(s);
    CorrectWithoutPattern(CorrectBrMarkupQuill(s));
  }

  /** An empty paragraph is replaced in place and the text around it is kept. */
  lemma CorrectExample(s: string, tail: string)
    requires s == "<p><br></p><p>X</p>" && tail == "<p>X</p>"
    ensures CorrectBrMarkupQuill(s) == LineBreak + tail
  {
    ShortTextLacksPattern(EmptyParagraph, tail);
    CorrectWithoutPattern(tail);
    assert s == EmptyParagraph + tail;
    assert EmptyParagraph <= s && s[|EmptyParagraph|..] == tail;
    assert CorrectBrMarkupQuill(s) == LineBreak + CorrectBrMarkupQuill(tail);
  }

  /** The key of a generated enumeration member, character by character: a space or a
      hyphen becomes an underscore and an apostrophe is dropped. */
  function SanitizeChar(c: char): string
  {
    if c == ' ' || c == '-' then "_" else if c == '\'' then "" else [c]
  }

  function SanitizeEnumKeyByChar(key: string): (r: string)
    ensures ' ' !in r && '-' !in r && '\'' !in r
  {
    if key == [] then [] else SanitizeChar(key[0]) + SanitizeEnumKeyByChar(key[1..])
  }

  /** `create_enum`'s key map: `.replace(' ', '_').replace('-', '_').replace("'", '')`. */
  function SanitizeEnumKey(key: string): string
  {
    RemoveChar(ReplaceChar(ReplaceChar(key, ' ', '_'), '-', '_'), '\'')
  }

  /** The three chained replacements are the one-pass character rewrite. */
  lemma {:induction false} SanitizeEnumKeyOnePass(key: string)
    ensures SanitizeEnumKey(key) == SanitizeEnumKeyByChar(key)
    ensures ' ' !in SanitizeEnumKey(key) && '-' !in SanitizeEnumKey(key) && '\'' !in SanitizeEnumKey(key)
  {
    if key != [] {
      SanitizeEnumKeyOnePass(key[1..]);
      var once := ReplaceChar(ReplaceChar(key, ' ', '_'), '-', '_');
      assert once == ReplaceChar(ReplaceChar([key[0]], ' ', '_'), '-', '_') + ReplaceChar(ReplaceChar(key[1..], ' ', '_'), '-', '_');
      assert once[1..] == ReplaceChar(ReplaceChar(key[1..], ' ', '_'), '-', '_');
    }
  }

  /** A key that is already a valid member name is kept. */
  lemma SanitizeEnumKeyKeepsClean(key: string)
    requires ' ' !in key && '-' !in key && '\'' !in key
    ensures SanitizeEnumKey(key) == key
  {
    assert ReplaceChar(key, ' ', '_') == key;
    assert ReplaceChar(key, '-', '_') == key;
    RemoveAbsent(key, '\'');
  }
}
