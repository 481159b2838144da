/**
  * The full-text search entry point of api/index_fts/search_utils.py: normalising the two
  * query strings, the short cut when both are empty, the choice between three query shapes
  * and the map from person identifier to highlight built from the hits.
  *
  * The index engine stays abstract: parsing a query string is represented by the query
  * value naming the parser's fields and grouping, running it by a `search` parameter, and
  * highlighting by a `highlights` parameter.
  */
module Search {
  import opened Wrappers
  import opened Text

  // ---------------------------------------------------------------- normalisation

  /** `remove_first_joker`: one character is dropped when the stripped query starts with '*'. */
  function RemoveFirstJoker(query: string): (r: string)
    ensures |r| + 1 == |query| || r == query
  {
    var t := Strip(query);
    if t != [] && t[0] == '*' then query[1..] else query
  }

  /** On an already stripped query exactly one leading '*' goes and nothing else changes. */
  lemma RemoveFirstJokerStripped(query: string)
    requires Strip(query) == query
    ensures query != [] && query[0] == '*' ==> query == "*" + RemoveFirstJoker(query)
    ensures !(query != [] && query[0] == '*') ==> RemoveFirstJoker(query) == query
  {
  }

  /** Only the first of several jokers goes: `**a` becomes `*a`. */
  lemma RemoveFirstJokerDouble(q: string)
    requires q == "**a"
    ensures RemoveFirstJoker(q) == "*a"
  {
    assert |q| == 3 && q[0] == '*' && q[2] == 'a';
    assert !IsSpace(q[0]) && !IsSpace(q[2]);
    StripOfStripped(q);
    assert q[1..] == "*a";
  }

  /** The name query: lowercased, stripped, transliterated by `unidecode`, then the joker
      goes; an empty query stays empty. */
  function NormalizeNameQuery(query: string, unidecode: string -> string): string
  {
    if query == [] then [] else RemoveFirstJoker(unidecode(Strip(Lower(query))))
  }

  /** The content query: stripped and the joker goes, with no lowercasing or folding. */
  function NormalizeContentQuery(query: string): string
  {
    if query == [] then [] else RemoveFirstJoker(Strip(query))
  }

  /** The content query is a piece of the raw query: the stripped text, less at most its
      leading joker. Letters keep their case. */
  lemma NormalizeContentQueryIsPiece(query: string)
    ensures exists i, j :: 0 <= i <= j <= |query| && NormalizeContentQuery(query) == query[i..j]
  {
    if query != [] {
      var t := Strip(query);
      var a := |query| - |LStrip(query)|;
      var b := if t != [] && t[0] == '*' then a + 1 else a;
      var piece := RemoveFirstJoker(t);
      assert a <= b <= a + |t| <= |query| && piece == query[b..a + |t|] by {
        StripSlice(query, t, a);
        StripOfStripped(t);
        JokerPiece(query, t, a, b);
      }
      assert NormalizeContentQuery(query) == piece;
    } else {
      assert NormalizeContentQuery(query) == query[0..0];
    }
  }

  /** The stripped text is the slice of the text that starts after the leading whitespace. */
  lemma StripSlice(query: string, t: string, a: int)
    requires t == Strip(query) && a == |query| - |LStrip(query)|
    ensures 0 <= a <= a + |t| <= |query| && t == query[a..a + |t|]
  {
    assert LStrip(query) == query[a..];
    assert t == query[a..][..|t|] == query[a..a + |t|];
  }

  /** Dropping the joker of a stripped slice leaves a slice. */
  lemma JokerPiece(query: string, t: string, a: int, b: int)
    requires 0 <= a <= a + |t| <= |query| && t == query[a..a + |t|] && Strip(t) == t
    requires b == if t != [] && t[0] == '*' then a + 1 else a
    ensures a <= b <= a + |t| && RemoveFirstJoker(t) == query[b..a + |t|]
  {
    if b == a + 1 {
      assert RemoveFirstJoker(t) == t[1..];
      assert t[1..] == query[a + 1..a + |t|];
    }
  }

  /** A lone joker, padded or not, normalises to nothing in either field (taking the
      transliteration to leave ASCII text as it is). */
  lemma LoneJokerIsEmpty(query: string, unidecode: string -> string)
    requires Strip(query) == "*" && unidecode("*") == "*"
    ensures NormalizeContentQuery(query) == [] && NormalizeNameQuery(query, unidecode) == []
  {
    LowerStrip(query);
    JokerGoes(Strip(query));
    assert NormalizeContentQuery(query) == RemoveFirstJoker(Strip(query));
    assert NormalizeNameQuery(query, unidecode) == RemoveFirstJoker(unidecode(Strip(query)));
  }

  lemma JokerGoes(t: string)
    requires t == "*"
    ensures RemoveFirstJoker(t) == []
  {
    assert |t| == 1 && t[0] == '*' && !IsSpace(t[0]);
    assert LStrip(t) == t;
    assert RStrip(t) == t;
    assert t[1..] == [];
  }

  /** A text that strips to a lone joker holds only whitespace and the joker. */
  lemma StripJokerChars(query: string)
    requires Strip(query) == "*"
    ensures forall i :: 0 <= i < |query| ==> query[i] == '*' || IsSpace(query[i])
  {
    var rest := LStrip(query);
    var a := |query| - |rest|;
    assert RStrip(rest) == "*";
    assert rest[..1] == "*";
    forall i | 0 <= i < |query| ensures query[i] == '*' || IsSpace(query[i]) {
      if i < a {
        assert query[..a][i] == query[i];
      } else if i > a {
        assert query[i] == rest[1..][i - a - 1];
      }
    }
  }

  /** Neither whitespace nor the joker is an upper-case letter, so lowercasing leaves such a
      text as it is. */
  lemma LowerStrip(query: string)
    requires Strip(query) == "*"
    ensures Lower(query) == query
  {
    StripJokerChars(query);
    LowerOfJokerChars(query);
  }

  lemma LowerOfJokerChars(query: string)
    requires forall i :: 0 <= i < |query| ==> query[i] == '*' || IsSpace(query[i])
    ensures Lower(query) == query
  {
    forall i | 0 <= i < |query| ensures Lower(query)[i] == query[i] {
      assert !IsAsciiUpper(query[i]);
    }
  }

  // ---------------------------------------------------------------- query shapes

  /** How a parser groups the terms of one query string when no operator is written.
      Whoosh's `QueryParser` and `MultifieldParser` default to `AndGroup`, so both
      constructors denote the same grouping: `DefaultGrouping` records a parser built without
      `group=`, `AndGrouping` one built with `group=AndGroup`. */
  datatype Grouping = DefaultGrouping | AndGrouping

  /** A parsed query: a query string parsed over some fields with some grouping, or a
      conjunction of parsed queries. */
  datatype Query =
    | Parsed(fields: seq<string>, text: string, grouping: Grouping)
    | Conjunction(parts: seq<Query>)

  const NameField := "firstnames_lastname"
  const ContentField := "content"

  /** The query shape for the two normalised strings; `None` when both are empty, in which
      case no searcher is opened. */
  function ChooseQuery(name: string, content: string): Option<Query>
  {
    if name != [] && content != [] then
      Some(Conjunction([Parsed([NameField], name, DefaultGrouping), Parsed([ContentField], content, DefaultGrouping)]))
    else if name != [] then Some(Parsed([NameField], name, AndGrouping))
    else if content != [] then Some(Parsed([ContentField], content, AndGrouping))
    else None
  }

  /** The (field, text) pairs a query searches. */
  function Searched(q: Query): set<(string, string)>
  {
    match q
    case Parsed(fields, text, _) => set f | f in fields :: (f, text)
    case Conjunction(parts) => set i, p | 0 <= i < |parts| && p in Searched(parts[i]) :: p
  }

  /** A field is searched exactly when its normalised query is not empty, and then with that
      query; a single-field query groups its terms with AND, the two-field query
      conjoins two default-grouped parses. */
  lemma ChooseQuerySpec(name: string, content: string)
    ensures ChooseQuery(name, content).None? <==> name == [] && content == []
    ensures ChooseQuery(name, content).Some? ==>
      Searched(ChooseQuery(name, content).value) ==
        (if name != [] then {(NameField, name)} else {}) + (if content != [] then {(ContentField, content)} else {})
    ensures name == [] && content != [] ==> ChooseQuery(name, content).value.grouping == AndGrouping
    ensures name != [] && content == [] ==> ChooseQuery(name, content).value.grouping == AndGrouping
    ensures name != [] && content != [] ==>
      forall p :: p in ChooseQuery(name, content).value.parts ==> p.Parsed? && p.grouping == DefaultGrouping
  {
    if name != [] && content != [] {
      var parts := [Parsed([NameField], name, DefaultGrouping), Parsed([ContentField], content, DefaultGrouping)];
      assert Searched(parts[0]) == {(NameField, name)};
      assert Searched(parts[1]) == {(ContentField, content)};
      assert Searched(Conjunction(parts)) == {(NameField, name), (ContentField, content)} by {
        assert (NameField, name) in Searched(parts[0]);
        assert (ContentField, content) in Searched(parts[1]);
      }
    }
  }

  // ---------------------------------------------------------------- hits

  /** One search result: the stored identifier and, when stored, the content field. */
  datatype Hit = Hit(idDil: string, content: Option<string>)

  /** The value stored for a hit: the content highlight, or `None` when the hit has no
      content. */
  function HighlightOf(h: Hit, highlights: Hit -> string): Option<string>
  {
    if h.content.Some? then Some(highlights(h)) else None
  }

  /** No later result carries the same identifier. */
  predicate LastWithId(results: seq<Hit>, i: int)
    requires 0 <= i < |results|
  {
    forall j :: i < j < |results| ==> results[j].idDil != results[i].idDil
  }

  /** The hit map of a result list: each result in turn writes its identifier's entry. */
  function HitMap(results: seq<Hit>, highlights: Hit -> string): map<string, Option<string>>
  {
    if results == [] then map[]
    else
      var last := results[|results| - 1];
      HitMap(results[..|results| - 1], highlights)[last.idDil := HighlightOf(last, highlights)]
  }

  /** One key per identifier found. */
  lemma {:induction false} HitMapDomain(results: seq<Hit>, highlights: Hit -> string, id: string)
    ensures id in HitMap(results, highlights) <==> exists i :: 0 <= i < |results| && results[i].idDil == id
  {
    if results != [] {
      var init := results[..|results| - 1];
      HitMapDomain(init, highlights, id);
      if exists i :: 0 <= i < |init| && init[i].idDil == id {
        var i :| 0 <= i < |init| && init[i].idDil == id;
        assert results[i] == init[i];
      }
      if exists i :: 0 <= i < |results| && results[i].idDil == id {
        var i :| 0 <= i < |results| && results[i].idDil == id;
        if i < |init| {
          assert init[i] == results[i];
        }
      }
    }
  }

  /** A later hit with the same identifier overwrites an earlier one: the entry of an
      identifier is the highlight of its last hit. */
  lemma {:induction false} HitMapLastWins(results: seq<Hit>, highlights: Hit -> string, i: nat)
    requires i < |results| && LastWithId(results, i)
    ensures results[i].idDil in HitMap(results, highlights)
    ensures HitMap(results, highlights)[results[i].idDil] == HighlightOf(results[i], highlights)
  {
    var init := results[..|results| - 1];
    if i < |init| {
      assert LastWithId(init, i) by {
        forall j | i < j < |init| ensures init[j].idDil != init[i].idDil {
          assert init[j] == results[j];
        }
      }
      HitMapLastWins(init, highlights, i);
      assert results[|results| - 1].idDil != results[i].idDil;
    }
  }

  /** The hit map loop over the results, in order. */
  method BuildHits(results: seq<Hit>, highlights: Hit -> string) returns (hits: map<string, Option<string>>)
    ensures hits == HitMap(results, highlights)
  {
    hits := map[];
    var n := 0;
    while n < |results|
      invariant 0 <= n <= |results|
      invariant hits == HitMap(results[..n], highlights)
    {
      var r := results[n];
      assert results[..n + 1][..n] == results[..n];
      hits := hits[r.idDil := HighlightOf(r, highlights)];
      n := n + 1;
    }
    assert results[..n] == results;
  }

  /** `search_whoosh`: normalise both queries; when both are empty return an empty map
      without searching; otherwise run the chosen query (up to `limit` results) and build
      the hit map. `searched` tells whether a searcher was opened. */
  method SearchWhoosh(queryName: string, queryContent: string, limit: int,
                      unidecode: string -> string,
                      search: (Query, int) -> seq<Hit>,
                      highlights: Hit -> string)
    returns (hits: map<string, Option<string>>, searched: bool)
    ensures var name := NormalizeNameQuery(queryName, unidecode);
      var content := NormalizeContentQuery(queryContent);
      && (searched <==> name != [] || content != [])
      && (!searched ==> hits == map[])
      && (searched ==>
            hits == HitMap(search(ChooseQuery(name, content).value, limit), highlights))
  {
    var name := NormalizeNameQuery(queryName, unidecode);
    var content := NormalizeContentQuery(queryContent);
    var query := ChooseQuery(name, content);
    if query.None? {
      ChooseQuerySpec(name, content);
      return map[], false;
    }
    var results := search(query.value, limit);
    hits := BuildHits(results, highlights);
    searched := true;
  }

  /** Two hits for one person: the later one's highlight is kept. */
  lemma LaterHitWins(a: Hit, b: Hit, highlights: Hit -> string)
    requires a.idDil == b.idDil
    ensures HitMap([a, b], highlights) == map[a.idDil := HighlightOf(b, highlights)]
  {
    assert [a, b][..1] == [a];
    assert [a][..0] == [];
    assert HitMap([a], highlights) == map[a.idDil := HighlightOf(a, highlights)];
  }
}
