/**
  * The person index document and the after-insert, after-update and after-delete hooks of
  * api/models/models.py that keep the full-text index in step with the `persons` table.
  *
  * The index engine is reduced to its stored documents, in insertion order; `unidecode` and
  * the preparation of a person's indexed text are parameters.
  */
module IndexHooks {
  import opened Wrappers
  import opened Text
  import opened Records

  /** A stored index document. The bulk population sets neither `contentNgram` nor
      `firstnamesLastname`; the hooks set both. */
  datatype Document = Document(
    idDil: string,
    lastname: string,
    firstnames: string,
    content: string,
    contentNgram: Option<string>,
    firstnamesLastname: Option<string>)

  /** `unidecode` (ASCII transliteration) and `prepare_content` (the indexed text of a person,
      from api/index_fts/index_conf, which is not part of this model). */
  datatype TextTools = TextTools(unidecode: string -> string, prepareContent: Person -> string)

  predicate NoAsciiUpper(s: string)
  {
    forall i :: 0 <= i < |s| ==> !IsAsciiUpper(s[i])
  }

  /** `unidecode(x).lower()`. */
  function FoldName(tools: TextTools, x: string): (r: string)
    ensures NoAsciiUpper(r)
  {
    Lower(tools.unidecode(x))
  }

  /** `f"{' '.join(firstnames.split(','))} {lastname}"`. */
  function FirstnamesLastname(firstnames: string, lastname: string): string
  {
    Join(" ", Split(firstnames, ',')) + " " + lastname
  }

  /** Splitting on commas and joining with spaces turns each comma into a space. */
  lemma FirstnamesLastnameCommas(firstnames: string, lastname: string)
    ensures FirstnamesLastname(firstnames, lastname) == ReplaceChar(firstnames, ',', ' ') + " " + lastname
    ensures ',' !in FirstnamesLastname(firstnames, lastname)[..|firstnames|]
  {
    JoinSplit(firstnames, ',', ' ');
    var r := FirstnamesLastname(firstnames, lastname);
    assert r[..|firstnames|] == ReplaceChar(firstnames, ',', ' ');
  }

  /** The document the insert and update hooks write for a person. */
  function PersonDocument(p: Person, tools: TextTools): Document
  {
    var lastname := FoldName(tools, p.lastname);
    var firstnames := FoldName(tools, OrEmpty(p.firstnames));
    var content := tools.prepareContent(p);
    Document(PyStr(p.idDil), lastname, firstnames, content,
             Some(Lower(tools.unidecode(content))), Some(FirstnamesLastname(firstnames, lastname)))
  }

  /** The person document: keyed by the printed identifier, names folded and lowercased, the
      combined name being the first names with commas turned into spaces, a space, then the
      last name, and the n-gram field the folded, lowercased content. */
  lemma PersonDocumentShape(p: Person, tools: TextTools)
    ensures var d := PersonDocument(p, tools);
      && d.idDil == PyStr(p.idDil)
      && NoAsciiUpper(d.lastname) && NoAsciiUpper(d.firstnames)
      && d.lastname == Lower(tools.unidecode(p.lastname))
      && d.firstnames == Lower(tools.unidecode(OrEmpty(p.firstnames)))
      && d.firstnamesLastname == Some(ReplaceChar(d.firstnames, ',', ' ') + " " + d.lastname)
      && d.content == tools.prepareContent(p)
      && d.contentNgram == Some(Lower(tools.unidecode(d.content)))
  {
    var d := PersonDocument(p, tools);
    FirstnamesLastnameCommas(d.firstnames, d.lastname);
  }

  /** `writer.delete_by_term('id_dil', id)`: every document with that identifier goes, the
      others stay in order. */
  function DeleteByTerm(docs: seq<Document>, id: string): (r: seq<Document>)
    ensures |r| <= |docs|
    ensures forall k :: 0 <= k < |r| ==> r[k].idDil != id && r[k] in docs
    ensures forall d :: d in docs && d.idDil != id ==> d in r
  {
    if docs == [] then []
    else (if docs[0].idDil == id then [] else [docs[0]]) + DeleteByTerm(docs[1..], id)
  }

  /** How many stored documents carry the identifier. */
  function CountId(docs: seq<Document>, id: string): nat
  {
    if docs == [] then 0 else (if docs[0].idDil == id then 1 else 0) + CountId(docs[1..], id)
  }

  /** The identifier is a unique key: every stored identifier occurs once. */
  predicate OnePerId(docs: seq<Document>)
  {
    forall k :: 0 <= k < |docs| ==> CountId(docs, docs[k].idDil) == 1
  }

  lemma {:induction false} CountIdAppend(docs: seq<Document>, d: Document, id: string)
    ensures CountId(docs + [d], id) == CountId(docs, id) + (if d.idDil == id then 1 else 0)
  {
    if docs != [] {
      CountIdAppend(docs[1..], d, id);
      assert (docs + [d])[1..] == docs[1..] + [d];
    }
  }

  lemma {:induction false} CountIdPositive(docs: seq<Document>, k: nat)
    requires k < |docs|
    ensures CountId(docs, docs[k].idDil) >= 1
  {
    if k > 0 {
      CountIdPositive(docs[1..], k - 1);
    }
  }

  /** Deleting by a term removes every document with it and keeps the count of every other
      identifier. */
  lemma {:induction false} DeleteByTermCount(docs: seq<Document>, id: string, x: string)
    ensures CountId(DeleteByTerm(docs, id), x) == if x == id then 0 else CountId(docs, x)
  {
    if docs != [] {
      DeleteByTermCount(docs[1..], id, x);
      var rest := DeleteByTerm(docs[1..], id);
      if docs[0].idDil != id {
        assert DeleteByTerm(docs, id) == [docs[0]] + rest;
        assert ([docs[0]] + rest)[1..] == rest;
      } else {
        assert DeleteByTerm(docs, id) == rest;
      }
    }
  }

  /** Deleting keeps the identifier a unique key. */
  lemma DeleteByTermKeepsOnePerId(docs: seq<Document>, id: string)
    requires OnePerId(docs)
    ensures OnePerId(DeleteByTerm(docs, id))
  {
    var r := DeleteByTerm(docs, id);
    forall k | 0 <= k < |r| ensures CountId(r, r[k].idDil) == 1 {
      DeleteByTermCount(docs, id, r[k].idDil);
      assert r[k] in docs;
    }
  }

  /**
    * The full-text index as the hooks see it: the stored documents.
    */
  class SearchIndex {
    var docs: seq<Document>

    constructor ()
      ensures docs == []
    {
      docs := [];
    }

    /** `writer.add_document(...)`: always appends, whatever is stored under the identifier. */
    method AddDocument(d: Document)
      modifies this
      ensures docs == old(docs) + [d]
    {
      docs := docs + [d];
    }

    /** `writer.delete_by_term('id_dil', id)`. */
    method DeleteDocumentsByTerm(id: string)
      modifies this
      ensures docs == DeleteByTerm(old(docs), id)
    {
      docs := DeleteByTerm(docs, id);
    }
  }

  /**
    * `insert_person_fts_index_after_insert` under `handle_index`. `available` is false when
    * opening the index or writing to it raises: the exception is swallowed and the index is
    * left as it was.
    */
  method InsertPersonIndex(ix: SearchIndex, target: Entity, tools: TextTools, available: bool)
    modifies ix
    ensures available && target.PersonEntity? ==> ix.docs == old(ix.docs) + [PersonDocument(target.person, tools)]
    ensures !(available && target.PersonEntity?) ==> ix.docs == old(ix.docs)
  {
    if available && target.PersonEntity? {
      ix.AddDocument(PersonDocument(target.person, tools));
    }
  }

  /** `update_person_fts_index_after_update` as written: the same `add_document` as the insert
      hook, so the document written at insert time stays next to the new one. */
  method UpdatePersonIndex(ix: SearchIndex, target: Entity, tools: TextTools, available: bool)
    modifies ix
    ensures available && target.PersonEntity? ==> ix.docs == old(ix.docs) + [PersonDocument(target.person, tools)]
    ensures !(available && target.PersonEntity?) ==> ix.docs == old(ix.docs)
  {
    if available && target.PersonEntity? {
      ix.AddDocument(PersonDocument(target.person, tools));
    }
  }

  /** The update hook as evidently intended: the stored document of the person is replaced
      (delete by identifier, then add), which is what the index's `update_document` does. */
  method UpdatePersonIndexReplacing(ix: SearchIndex, target: Entity, tools: TextTools, available: bool)
    modifies ix
    ensures available && target.PersonEntity? ==>
      ix.docs == DeleteByTerm(old(ix.docs), PyStr(target.person.idDil)) + [PersonDocument(target.person, tools)]
    ensures !(available && target.PersonEntity?) ==> ix.docs == old(ix.docs)
    ensures available && target.PersonEntity? && OnePerId(old(ix.docs)) ==> OnePerId(ix.docs)
  {
    if available && target.PersonEntity? {
      var d := PersonDocument(target.person, tools);
      ReplaceKeepsOnePerId(ix.docs, d);
      ix.DeleteDocumentsByTerm(d.idDil);
      ix.AddDocument(d);
    }
  }

  /** `delete_person_fts_index_after_delete`: every document of the person goes. */
  method DeletePersonIndex(ix: SearchIndex, target: Entity, available: bool)
    modifies ix
    ensures available && target.PersonEntity? ==> ix.docs == DeleteByTerm(old(ix.docs), PyStr(target.person.idDil))
    ensures !(available && target.PersonEntity?) ==> ix.docs == old(ix.docs)
    ensures available && target.PersonEntity? ==> CountId(ix.docs, PyStr(target.person.idDil)) == 0
  {
    if available && target.PersonEntity? {
      DeleteByTermCount(ix.docs, PyStr(target.person.idDil), PyStr(target.person.idDil));
      ix.DeleteDocumentsByTerm(PyStr(target.person.idDil));
    }
  }

  /** Adding a document under an identifier already stored breaks the one-document-per-person
      rule: the as-written update hook leaves two documents for the person. */
  lemma AppendOverStoredBreaksOnePerId(docs: seq<Document>, d: Document)
    requires exists k :: 0 <= k < |docs| && docs[k].idDil == d.idDil
    ensures CountId(docs + [d], d.idDil) >= 2
    ensures !OnePerId(docs + [d])
  {
    var k :| 0 <= k < |docs| && docs[k].idDil == d.idDil;
    CountIdPositive(docs, k);
    CountIdAppend(docs, d, d.idDil);
    assert (docs + [d])[|docs|] == d;
  }

  /** Inserting a person and then updating it leaves two documents with its identifier. */
  lemma InsertThenUpdateDuplicates(p: Person, q: Person, tools: TextTools)
    requires q.idDil == p.idDil
    ensures CountId([PersonDocument(p, tools)] + [PersonDocument(q, tools)], PyStr(p.idDil)) == 2
  {
    AppendOverStoredBreaksOnePerId([PersonDocument(p, tools)], PersonDocument(q, tools));
    CountIdAppend([PersonDocument(p, tools)], PersonDocument(q, tools), PyStr(p.idDil));
  }

  /** Replacing keeps exactly one document for the identifier, the new one. */
  lemma ReplaceKeepsOnePerId(docs: seq<Document>, d: Document)
    ensures CountId(DeleteByTerm(docs, d.idDil) + [d], d.idDil) == 1
    ensures OnePerId(docs) ==> OnePerId(DeleteByTerm(docs, d.idDil) + [d])
  {
    var r := DeleteByTerm(docs, d.idDil);
    DeleteByTermCount(docs, d.idDil, d.idDil);
    CountIdAppend(r, d, d.idDil);
    if OnePerId(docs) {
      DeleteByTermKeepsOnePerId(docs, d.idDil);
      InsertNewKeepsOnePerId(r, d);
    }
  }

  /** Inserting a person whose identifier is not yet stored keeps the rule. */
  lemma InsertNewKeepsOnePerId(docs: seq<Document>, d: Document)
    requires OnePerId(docs)
    requires CountId(docs, d.idDil) == 0
    ensures OnePerId(docs + [d])
  {
    var u := docs + [d];
    forall k | 0 <= k < |u| ensures CountId(u, u[k].idDil) == 1 {
      CountIdAppend(docs, d, u[k].idDil);
      if k < |docs| {
        CountIdPositive(docs, k);
      }
    }
  }
}
