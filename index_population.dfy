/**
  * Bulk population of the full-text index (api/index_fts/index_utils.py, `populate_index`):
  * one document per person row, written through one index writer that commits once at the
  * end. `bleach.clean` (markup stripping) is a parameter.
  */
module IndexPopulation {
  import opened Wrappers
  import opened Text
  import opened Records
  import opened IndexHooks

  /** An index writer: documents added through it become visible on commit. */
  class IndexWriter {
    const index: SearchIndex
    var pending: seq<Document>

    constructor (ix: SearchIndex)
      ensures index == ix && pending == []
    {
      index := ix;
      pending := [];
    }

    method AddDocument(d: Document)
      modifies this
      ensures pending == old(pending) + [d]
    {
      pending := pending + [d];
    }

    method Commit()
      modifies this, index
      ensures index.docs == old(index.docs) + old(pending)
      ensures pending == []
    {
      index.docs := index.docs + pending;
      pending := [];
    }
  }

  /** `printer.patents`: the patents of the person, in table order. */
  function PatentsOf(patents: seq<Patent>, personId: int): (r: seq<Patent>)
    ensures forall k :: 0 <= k < |r| ==> r[k].personId == personId && r[k] in patents
  {
    if patents == [] then []
    else (if patents[0].personId == personId then [patents[0]] else []) + PatentsOf(patents[1..], personId)
  }

  /** The pieces of a person's indexed text: personal and professional information, then
      each patent's references, a missing value counting as an empty piece. */
  function ContentPieces(p: Person, patents: seq<Patent>): (r: seq<string>)
    ensures |r| == 2 + |PatentsOf(patents, p.id)|
  {
    var own := PatentsOf(patents, p.id);
    [OrEmpty(p.personalInformation), OrEmpty(p.professionalInformation)]
      + seq(|own|, k requires 0 <= k < |own| => OrEmpty(own[k].references))
  }

  /** The document bulk population writes: the printed identifier, the names as stored
      (no folding), the cleaned joined text, and neither the n-gram nor the combined name
      field. */
  function BulkDocument(p: Person, patents: seq<Patent>, clean: string -> string): Document
  {
    Document(PyStr(p.idDil), p.lastname, OrEmpty(p.firstnames),
             clean(Join(" ", ContentPieces(p, patents))), None, None)
  }

  function BulkDocuments(persons: seq<Person>, patents: seq<Patent>, clean: string -> string): (r: seq<Document>)
    ensures |r| == |persons|
  {
    seq(|persons|, i requires 0 <= i < |persons| => BulkDocument(persons[i], patents, clean))
  }

  /** The source list of one person: the loop over its patents appending each one's
      references. */
  method CollectSources(own: seq<Patent>) returns (sources: seq<string>)
    ensures |sources| == |own|
    ensures forall k :: 0 <= k < |own| ==> sources[k] == OrEmpty(own[k].references)
  {
    sources := [];
    for k := 0 to |own|
      invariant |sources| == k
      invariant forall j :: 0 <= j < k ==> sources[j] == OrEmpty(own[j].references)
    {
      sources := sources + [OrEmpty(own[k].references)];
    }
  }

  /** `populate_index`: one `add_document` per person, in query order, then one commit. */
  method PopulateIndex(ix: SearchIndex, persons: seq<Person>, patents: seq<Patent>, clean: string -> string)
    modifies ix
    ensures ix.docs == old(ix.docs) + BulkDocuments(persons, patents, clean)
  {
    var writer := new IndexWriter(ix);
    for i := 0 to |persons|
      invariant writer.index == ix && ix.docs == old(ix.docs)
      invariant writer.pending == BulkDocuments(persons[..i], patents, clean)
    {
      var printer := persons[i];
      var texts := [OrEmpty(printer.personalInformation), OrEmpty(printer.professionalInformation)];
      var sources := CollectSources(PatentsOf(patents, printer.id));
      assert texts + sources == ContentPieces(printer, patents);
      var allText := Join(" ", texts + sources);
      var cleanText := clean(allText);
      writer.AddDocument(Document(PyStr(printer.idDil), printer.lastname, OrEmpty(printer.firstnames),
                                  cleanText, None, None));
      assert writer.pending == BulkDocuments(persons[..i + 1], patents, clean);
    }
    assert persons[..|persons|] == persons;
    writer.Commit();
  }

  /** One document per person, in order, keyed by the person's printed identifier, with the
      names as stored and without the fields only the mutation hooks fill. */
  lemma BulkDocumentsShape(persons: seq<Person>, patents: seq<Patent>, clean: string -> string)
    ensures var r := BulkDocuments(persons, patents, clean);
      forall i :: 0 <= i < |persons| ==>
        && r[i].idDil == PyStr(persons[i].idDil)
        && r[i].lastname == persons[i].lastname
        && r[i].firstnames == OrEmpty(persons[i].firstnames)
        && r[i].contentNgram.None? && r[i].firstnamesLastname.None?
  {
  }

  /** The bulk document is never the one the mutation hooks write for the same person. */
  lemma BulkDiffersFromHook(p: Person, patents: seq<Patent>, clean: string -> string, tools: TextTools)
    ensures BulkDocument(p, patents, clean) != PersonDocument(p, tools)
  {
  }

  /** The indexed text starts with the personal information, a space and the professional
      information, whether or not they are present. */
  lemma ContentStartsWithInformation(p: Person, patents: seq<Patent>)
    ensures OrEmpty(p.personalInformation) + " " + OrEmpty(p.professionalInformation)
      <= Join(" ", ContentPieces(p, patents))
  {
    JoinPrefix(ContentPieces(p, patents));
  }

  lemma JoinPrefix(pieces: seq<string>)
    requires |pieces| >= 2
    ensures pieces[0] + " " + pieces[1] <= Join(" ", pieces)
  {
    var head := pieces[0] + " " + pieces[1];
    var tail := JoinTail(pieces);
    assert head <= head + tail;
  }

  /** What follows the first two pieces in the joined text. */
  lemma JoinTail(pieces: seq<string>) returns (tail: string)
    requires |pieces| >= 2
    ensures Join(" ", pieces) == pieces[0] + " " + pieces[1] + tail
  {
    JoinCons(pieces);
    if |pieces| > 2 {
      JoinCons(pieces[1..]);
      assert pieces[1..][1..] == pieces[2..];
      tail := " " + Join(" ", pieces[2..]);
    } else {
      assert pieces[1..] == [pieces[1]];
      tail := [];
    }
  }

  lemma JoinCons(pieces: seq<string>)
    requires |pieces| >= 2
    ensures Join(" ", pieces) == pieces[0] + " " + Join(" ", pieces[1..])
  {
  }

  /** How many documents carry an identifier no document carries: none. */
  lemma {:induction false} CountIdAbsent(docs: seq<Document>, id: string)
    requires forall k :: 0 <= k < |docs| ==> docs[k].idDil != id
    ensures CountId(docs, id) == 0
  {
    if docs != [] {
      CountIdAbsent(docs[1..], id);
    }
  }

  /** Populating an empty index from persons with pairwise distinct identifiers leaves one
      document per identifier. */
  lemma {:induction false} BulkDocumentsOnePerId(persons: seq<Person>, patents: seq<Patent>, clean: string -> string)
    requires forall i, j :: 0 <= i < j < |persons| ==> PyStr(persons[i].idDil) != PyStr(persons[j].idDil)
    ensures OnePerId(BulkDocuments(persons, patents, clean))
  {
    if persons != [] {
      var n := |persons| - 1;
      var init := persons[..n];
      BulkDocumentsOnePerId(init, patents, clean);
      var docs := BulkDocuments(init, patents, clean);
      var d := BulkDocument(persons[n], patents, clean);
      assert BulkDocuments(persons, patents, clean) == docs + [d];
      CountIdAbsent(docs, d.idDil);
      InsertNewKeepsOnePerId(docs, d);
    }
  }
}
