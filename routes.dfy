/**
  * The read side of the public API (api/routes.py): the images of a person grouped by
  * patent with pinned and total counts (`read_images`), and the person list filtered by the
  * city and the start date of their patents (`read_printers`).
  *
  * The database answers are inputs: the patents of a person with their image relations in
  * relationship order, and the rows of the person-patent-city join in query order. The
  * `normalize_date` helper of this file is the same code as the one in api/api_utils.py and
  * is `Dates.NormalizeDate`.
  */
module Routes {
  import opened Wrappers
  import opened Text
  import opened Records
  import opened Dates

  // ---------------------------------------------------------------- read_images

  /** One image of a patent as the route lists it, the relation's pin flag included. */
  datatype ImageItem = ImageItem(
    imageId: Option<string>,
    labelText: Option<string>,
    referenceUrl: Option<string>,
    imgName: Option<string>,
    iiifUrl: Option<string>,
    isPinned: bool)

  datatype PatentImages = PatentImages(patentId: Option<string>, images: seq<ImageItem>)

  /** A person found by identifier, with its patents in relationship order. */
  datatype PrinterImages = PrinterImages(idDil: Option<string>, patents: seq<PatentImages>)

  datatype ImagesResponse = ImagesResponse(
    personId: Option<string>,
    patentImages: seq<PatentImages>,
    totalImages: nat,
    totalImagesPinned: nat,
    imagesPinned: seq<ImageItem>)

  /** All images, patent after patent, each patent's images in relation order. */
  function AllImages(ps: seq<PatentImages>): seq<ImageItem>
  {
    if ps == [] then [] else AllImages(ps[..|ps| - 1]) + ps[|ps| - 1].images
  }

  /** The pinned images of a list, in order. */
  function Pinned(items: seq<ImageItem>): (r: seq<ImageItem>)
    ensures |r| <= |items|
    ensures forall x :: x in r ==> x.isPinned && x in items
    ensures forall x :: x in items && x.isPinned ==> x in r
  {
    if items == [] then []
    else Pinned(items[..|items| - 1]) + (if items[|items| - 1].isPinned then [items[|items| - 1]] else [])
  }

  lemma {:induction false} PinnedAppend(a: seq<ImageItem>, b: seq<ImageItem>)
    ensures Pinned(a + b) == Pinned(a) + Pinned(b)
  {
    if b != [] {
      var b0 := b[..|b| - 1];
      PinnedAppend(a, b0);
      assert (a + b)[..|a + b| - 1] == a + b0;
    } else {
      assert a + b == a;
    }
  }

  /** `sum(len(p["images"]) for p in patent_images)`. */
  function SumLengths(ps: seq<PatentImages>): nat
  {
    if ps == [] then 0 else SumLengths(ps[..|ps| - 1]) + |ps[|ps| - 1].images|
  }

  /** The summed lengths count every listed image once. */
  lemma {:induction false} SumLengthsIsAll(ps: seq<PatentImages>)
    ensures SumLengths(ps) == |AllImages(ps)|
  {
    if ps != [] {
      SumLengthsIsAll(ps[..|ps| - 1]);
    }
  }

  /** `read_images`: 404 for an unknown person; otherwise the patents with their images, the
      total number of images, and the pinned images in patent-then-relation order with their
      number. */
  method ReadImages(printer: Option<PrinterImages>) returns (r: Result<ImagesResponse>)
    ensures printer.None? ==> r == Failure(HttpError(404))
    ensures printer.Some? ==>
      var ps := printer.value.patents;
      && r.Success?
      && r.value.personId == printer.value.idDil
      && r.value.patentImages == ps
      && r.value.totalImages == |AllImages(ps)|
      && r.value.imagesPinned == Pinned(AllImages(ps))
      && r.value.totalImagesPinned == |Pinned(AllImages(ps))|
  {
    if printer.None? {
      return Failure(HttpError(404));
    }
    var ps := printer.value.patents;
    var patentImages: seq<PatentImages> := [];
    var imagesPinned: seq<ImageItem> := [];
    for i := 0 to |ps|
      invariant patentImages == ps[..i]
      invariant imagesPinned == Pinned(AllImages(ps[..i]))
    {
      var images := ps[i].images;
      assert ps[..i + 1][..i] == ps[..i];
      PinnedAppend(AllImages(ps[..i]), images);
      imagesPinned := imagesPinned + Pinned(images);
      patentImages := patentImages + [PatentImages(ps[i].patentId, images)];
    }
    assert ps[..|ps|] == ps;
    SumLengthsIsAll(ps);
    r := Success(ImagesResponse(printer.value.idDil, patentImages, SumLengths(patentImages),
                                |imagesPinned|, imagesPinned));
  }

  /** When every patent has at most one pinned image (what the pin repair keeps), a person has
      at most one pinned image per patent in total. */
  lemma {:induction false} PinnedAtMostOnePerPatent(ps: seq<PatentImages>)
    requires forall i :: 0 <= i < |ps| ==> |Pinned(ps[i].images)| <= 1
    ensures |Pinned(AllImages(ps))| <= |ps|
  {
    if ps != [] {
      var init := ps[..|ps| - 1];
      PinnedAtMostOnePerPatent(init);
      PinnedAppend(AllImages(init), ps[|ps| - 1].images);
    }
  }

  // ---------------------------------------------------------------- read_printers

  /** A row of the person ⋈ patent ⟕ city join. */
  datatype JoinedRow = JoinedRow(person: Person, patent: Patent, city: Option<City>)

  /** A query parameter that is present and not empty. */
  predicate Truthy(x: Option<string>)
  {
    x.Some? && x.value != ""
  }

  /** `column LIKE '%q%'` in SQLite: a case-insensitive (ASCII) substring test; NULL never
      matches. */
  predicate LikeContains(column: Option<string>, q: string)
  {
    column.Some? && IsSubstring(Lower(q), Lower(column.value))
  }

  /** `column LIKE 'q%'`: a case-insensitive (ASCII) prefix test. */
  predicate LikePrefix(column: Option<string>, q: string)
  {
    column.Some? && Lower(q) <= Lower(column.value)
  }

  /** The city filter: the joined city's label or the patent's own city label contains the
      query. */
  predicate CityMatches(row: JoinedRow, q: string)
  {
    LikeContains(if row.city.Some? then Some(row.city.value.labelText) else None, q)
    || LikeContains(row.patent.cityLabel, q)
  }

  /** The date filter: in exact mode the start date equals the raw query; otherwise it starts
      with the query or is not before the padded query in string order. */
  predicate DateMatches(row: JoinedRow, q: string, exact: bool)
  {
    if exact then row.patent.dateStart == Some(q)
    else (LikePrefix(row.patent.dateStart, q)
          || (row.patent.dateStart.Some? && LexLe(NormalizeDate(q), row.patent.dateStart.value)))
  }

  /** The rows that pass a test, in order. */
  function Keep(rows: seq<JoinedRow>, test: JoinedRow -> bool): (r: seq<JoinedRow>)
    ensures |r| <= |rows|
    ensures forall x :: x in r <==> x in rows && test(x)
  {
    if rows == [] then []
    else (if test(rows[0]) then [rows[0]] else []) + Keep(rows[1..], test)
  }

  /** The date filter applies only to a query of at least four characters. */
  predicate DateFilterApplies(dateQuery: Option<string>)
  {
    Truthy(dateQuery) && |dateQuery.value| >= 4
  }

  /** The join refined by the city filter, then by the date filter. */
  function SelectRows(rows: seq<JoinedRow>, cityQuery: Option<string>, dateQuery: Option<string>, exact: bool): seq<JoinedRow>
  {
    var byCity := if Truthy(cityQuery) then Keep(rows, row => CityMatches(row, cityQuery.value)) else rows;
    if DateFilterApplies(dateQuery) then Keep(byCity, row => DateMatches(row, dateQuery.value, exact)) else byCity
  }

  /** A row is selected exactly when it passes every filter whose parameter is given. */
  lemma SelectRowsSpec(rows: seq<JoinedRow>, cityQuery: Option<string>, dateQuery: Option<string>, exact: bool)
    ensures forall x :: x in SelectRows(rows, cityQuery, dateQuery, exact) <==>
      && x in rows
      && (Truthy(cityQuery) ==> CityMatches(x, cityQuery.value))
      && (DateFilterApplies(dateQuery) ==> DateMatches(x, dateQuery.value, exact))
    ensures !Truthy(cityQuery) && !DateFilterApplies(dateQuery) ==> SelectRows(rows, cityQuery, dateQuery, exact) == rows
  {
  }

  /** An exact query compares with the raw text: a year does not select a full date. */
  lemma ExactDateIsRaw(row: JoinedRow, q: string, d: string)
    requires q == "1855" && d == "1855-03-01" && row.patent.dateStart == Some(d)
    ensures !DateMatches(row, q, true) && DateMatches(row, q, false)
  {
    assert Lower(q) == q && Lower(d) == d;
    assert q <= d;
  }

  /** Outside exact mode a start date after the padded query is selected. */
  lemma NonExactLaterDate(later: JoinedRow, q: string)
    requires q == "1855-06" && later.patent.dateStart == Some("1856-01-01")
    ensures DateMatches(later, q, false)
  {
    NormalizeDateOfYearMonth(q);
    LexLeAt(q + "-01", "1856-01-01", 3);
  }

  /** Outside exact mode a start date before the padded query, not starting with it, is not. */
  lemma NonExactEarlierDate(earlier: JoinedRow, q: string)
    requires q == "1855-06" && earlier.patent.dateStart == Some("1855-05-31")
    ensures !DateMatches(earlier, q, false)
  {
    var d := earlier.patent.dateStart.value;
    EarlierNotPrefixed(q, d);
    EarlierBeforePadded(q, d);
  }

  lemma EarlierNotPrefixed(q: string, d: string)
    requires q == "1855-06" && d == "1855-05-31"
    ensures !(Lower(q) <= Lower(d))
  {
    assert Lower(q) == q && Lower(d) == d;
    assert q[6] != d[6];
  }

  lemma EarlierBeforePadded(q: string, d: string)
    requires q == "1855-06" && d == "1855-05-31"
    ensures !LexLe(NormalizeDate(q), d)
  {
    NormalizeDateOfYearMonth(q);
    NotLexLeAt(q + "-01", d, 6);
  }

  /** A text that differs first at a position where it has the larger character comes after. */
  lemma {:induction false} NotLexLeAt(a: string, b: string, k: nat)
    requires k < |a| && k < |b| && a[..k] == b[..k] && a[k] > b[k]
    ensures !LexLe(a, b)
  {
    if k > 0 {
      assert a[0] == a[..k][0] == b[..k][0] == b[0];
      assert a[1..][..k - 1] == a[1..k] == b[1..k] == b[1..][..k - 1];
      NotLexLeAt(a[1..], b[1..], k - 1);
    }
  }

  /** One entry of the person list. */
  datatype PrinterSummary = PrinterSummary(idDil: string, lastname: string, firstnames: Option<string>, totalPatents: nat)

  function CountPatents(patents: seq<Patent>, personId: int): nat
  {
    if patents == [] then 0 else (if patents[0].personId == personId then 1 else 0) + CountPatents(patents[1..], personId)
  }

  /** The summary of one person: its identifier, names and number of patents. */
  function SummaryOf(p: Person, patents: seq<Patent>): PrinterSummary
    requires Truthy(p.idDil)
  {
    PrinterSummary(p.idDil.value, p.lastname, p.firstnames, CountPatents(patents, p.id))
  }

  /** The summaries of the identified persons of some rows, as a set. */
  function SummarySet(page: seq<JoinedRow>, patents: seq<Patent>): set<PrinterSummary>
  {
    set x | x in page && Truthy(x.person.idDil) :: SummaryOf(x.person, patents)
  }

  /** The page's rows, turned into summaries; rows whose person has no identifier are dropped. */
  function Summaries(page: seq<JoinedRow>, patents: seq<Patent>): (r: seq<PrinterSummary>)
    ensures |r| <= |page|
    ensures forall k :: 0 <= k < |r| ==> r[k].idDil != ""
    ensures forall x :: x in page && Truthy(x.person.idDil) ==> SummaryOf(x.person, patents) in r
    ensures forall m :: m in r ==> m in SummarySet(page, patents)
  {
    if page == [] then []
    else
      var p := page[0].person;
      (if Truthy(p.idDil) then [SummaryOf(p, patents)] else []) + Summaries(page[1..], patents)
  }

  /** A page of rows whose persons all carry an identifier keeps every row, in order. */
  lemma {:induction false} SummariesKeepIdentified(page: seq<JoinedRow>, patents: seq<Patent>)
    requires forall k :: 0 <= k < |page| ==> Truthy(page[k].person.idDil)
    ensures |Summaries(page, patents)| == |page|
    ensures forall k :: 0 <= k < |page| ==> Some(Summaries(page, patents)[k].idDil) == page[k].person.idDil
  {
    if page != [] {
      SummariesKeepIdentified(page[1..], patents);
    }
  }

  /** A row whose person has no identifier contributes nothing. */
  lemma SummariesDropUnidentified(row: JoinedRow, rest: seq<JoinedRow>, patents: seq<Patent>)
    requires !Truthy(row.person.idDil)
    ensures Summaries([row] + rest, patents) == Summaries(rest, patents)
  {
    assert ([row] + rest)[1..] == rest;
  }

  /** The page at `offset` of `size` rows. */
  function PageOf(rows: seq<JoinedRow>, offset: nat, size: nat): (r: seq<JoinedRow>)
    ensures |r| <= size
    ensures forall x :: x in r ==> x in rows
  {
    if offset >= |rows| then []
    else if offset + size >= |rows| then rows[offset..]
    else rows[offset..offset + size]
  }

  /** The identifiers of the persons of some rows. */
  function PersonIds(rows: seq<JoinedRow>): set<int>
  {
    set x | x in rows :: x.person.id
  }

  /** Each person once, at its first row, as the ORM query of a single entity returns its
      rows (identity by primary key). */
  function DistinctPersons(page: seq<JoinedRow>): (r: seq<JoinedRow>)
    ensures |r| <= |page|
    ensures forall x :: x in r ==> x in page
    ensures PersonIds(r) == PersonIds(page)
    ensures forall i, j :: 0 <= i < j < |r| ==> r[i].person.id != r[j].person.id
  {
    if page == [] then []
    else
      var init := page[..|page| - 1];
      var last := page[|page| - 1];
      var d := DistinctPersons(init);
      assert forall x :: x in init ==> x in page;
      assert page == init + [last];
      PersonIdsAppend(init, last);
      PersonIdsAppend(d, last);
      if last.person.id in PersonIds(init) then d else d + [last]
  }

  lemma PersonIdsAppend(rows: seq<JoinedRow>, x: JoinedRow)
    ensures PersonIds(rows + [x]) == PersonIds(rows) + {x.person.id}
  {
    assert forall y :: y in rows + [x] <==> y in rows || y == x;
  }

  /** What the database guarantees of the join: a person's columns are the same on each of
      its rows, and `_id_dil` is unique among persons. */
  predicate JoinConsistent(rows: seq<JoinedRow>)
  {
    && (forall x, y :: x in rows && y in rows && x.person.id == y.person.id ==> x.person == y.person)
    && (forall x, y :: x in rows && y in rows && Truthy(x.person.idDil) && x.person.idDil == y.person.idDil ==>
          x.person.id == y.person.id)
  }

  /** The rows of a page carry pairwise distinct persons. */
  predicate DistinctIds(d: seq<JoinedRow>)
  {
    forall i, j :: 0 <= i < j < |d| ==> d[i].person.id != d[j].person.id
  }

  /** Summaries with pairwise distinct identifiers. */
  predicate DistinctSummaries(r: seq<PrinterSummary>)
  {
    forall i, j :: 0 <= i < j < |r| ==> r[i].idDil != r[j].idDil
  }

  /** Distinct persons of a consistent join give summaries with distinct identifiers. */
  lemma {:induction false} SummariesDistinct(d: seq<JoinedRow>, patents: seq<Patent>)
    requires JoinConsistent(d) && DistinctIds(d)
    ensures DistinctSummaries(Summaries(d, patents))
  {
    if d != [] {
      var rest := d[1..];
      ConsistentTail(d);
      SummariesDistinct(rest, patents);
      var p := d[0].person;
      if Truthy(p.idDil) {
        TailAvoidsHead(d, patents);
        ConsDistinct(SummaryOf(p, patents), Summaries(rest, patents));
      }
    }
  }

  lemma ConsistentTail(d: seq<JoinedRow>)
    requires d != [] && JoinConsistent(d) && DistinctIds(d)
    ensures JoinConsistent(d[1..]) && DistinctIds(d[1..])
  {
    var rest := d[1..];
    assert forall x :: x in rest ==> x in d;
    forall i, j | 0 <= i < j < |rest| ensures rest[i].person.id != rest[j].person.id {
      assert rest[i] == d[i + 1] && rest[j] == d[j + 1];
    }
  }

  /** No later person of the page shares the first person's identifier. */
  lemma TailAvoidsHead(d: seq<JoinedRow>, patents: seq<Patent>)
    requires d != [] && JoinConsistent(d) && DistinctIds(d) && Truthy(d[0].person.idDil)
    ensures forall m :: m in Summaries(d[1..], patents) ==> m.idDil != d[0].person.idDil.value
  {
    var rest := d[1..];
    var p := d[0].person;
    forall m | m in Summaries(rest, patents) ensures m.idDil != p.idDil.value {
      var k := SummaryRow(rest, patents, m);
      assert d[k + 1] == rest[k];
    }
  }

  /** The row a summary comes from. */
  lemma SummaryRow(page: seq<JoinedRow>, patents: seq<Patent>, m: PrinterSummary) returns (k: nat)
    requires m in Summaries(page, patents)
    ensures k < |page| && Truthy(page[k].person.idDil) && m.idDil == page[k].person.idDil.value
  {
    assert m in SummarySet(page, patents);
    var x :| x in page && Truthy(x.person.idDil) && m == SummaryOf(x.person, patents);
    k :| k < |page| && page[k] == x;
  }

  lemma ConsDistinct(h: PrinterSummary, tail: seq<PrinterSummary>)
    requires DistinctSummaries(tail) && forall m :: m in tail ==> m.idDil != h.idDil
    ensures DistinctSummaries([h] + tail)
  {
    var r := [h] + tail;
    forall i, j | 0 <= i < j < |r| ensures r[i].idDil != r[j].idDil {
      assert r[j] == tail[j - 1];
      if i > 0 {
        assert r[i] == tail[i - 1];
      }
    }
  }

  /** The summaries of a page after de-duplication: one per identified person, each
      identified person of the page included. */
  lemma OnePerPerson(page: seq<JoinedRow>, patents: seq<Patent>)
    requires JoinConsistent(page)
    ensures var r := Summaries(DistinctPersons(page), patents);
      && DistinctSummaries(r)
      && (forall x :: x in page && Truthy(x.person.idDil) ==> SummaryOf(x.person, patents) in r)
  {
    var d := DistinctPersons(page);
    assert JoinConsistent(d);
    SummariesDistinct(d, patents);
    forall x | x in page && Truthy(x.person.idDil) ensures SummaryOf(x.person, patents) in Summaries(d, patents) {
      assert x.person.id in PersonIds(page);
      var y :| y in d && y.person.id == x.person.id;
      assert y.person == x.person;
    }
  }

  /** `read_printers`: refine the join by the city and date filters, take the page, answer 404
      for an empty page and otherwise the summaries of its identified persons, each person
      once. */
  method ReadPrinters(rows: seq<JoinedRow>, patents: seq<Patent>,
                      cityQuery: Option<string>, dateQuery: Option<string>, exact: bool,
                      offset: nat, size: nat)
    returns (r: Result<seq<PrinterSummary>>)
    ensures var page := PageOf(SelectRows(rows, cityQuery, dateQuery, exact), offset, size);
      && (page == [] ==> r == Failure(HttpError(404)))
      && (page != [] ==> r == Success(Summaries(DistinctPersons(page), patents)))
    ensures r.Success? && JoinConsistent(rows) ==>
      && DistinctSummaries(r.value)
      && (forall x :: (x in PageOf(SelectRows(rows, cityQuery, dateQuery, exact), offset, size)
                       && Truthy(x.person.idDil)) ==> SummaryOf(x.person, patents) in r.value)
  {
    var query := rows;
    if Truthy(cityQuery) {
      var q := cityQuery.value;
      query := Keep(query, row => CityMatches(row, q));
    }
    if Truthy(dateQuery) {
      var q := dateQuery.value;
      if |q| >= 4 {
        query := Keep(query, row => DateMatches(row, q, exact));
      }
    }
    var page := PageOf(query, offset, size);
    if page == [] {
      return Failure(HttpError(404));
    }
    r := Success(Summaries(DistinctPersons(page), patents));
    if JoinConsistent(rows) {
      SelectRowsSpec(rows, cityQuery, dateQuery, exact);
      assert JoinConsistent(page);
      OnePerPerson(page, patents);
    }
  }
}
