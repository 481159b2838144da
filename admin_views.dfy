/**
  * Three read-only endpoints of the admin interface (api/admin/views.py): the details of one
  * image, the person picker's search (`ajax_printers`) and a person's patent relations
  * grouped by patent (`get_patent_relations`).
  *
  * Tables are sequences of rows in query order; `url_for` and `repr(person)` are parameters.
  */
module AdminViews {
  import opened Wrappers
  import opened Text
  import opened Records
  import Routes

  // ---------------------------------------------------------------- get_image_details

  datatype ImageDetails = ImageDetails(id: int, labelText: string, imgName: Option<string>, imgUrl: Option<string>)

  /** `filter_by(id=image_id).first()`: the first image whose key prints as the parameter. */
  function FindImage(images: seq<Image>, id: string): (r: Option<Image>)
    ensures r.Some? ==> r.value in images && IntToString(r.value.id) == id
    ensures r.None? ==> forall im :: im in images ==> IntToString(im.id) != id
  {
    if images == [] then None
    else if IntToString(images[0].id) == id then Some(images[0])
    else FindImage(images[1..], id)
  }

  /** `get_image_details`: 400 without an id, 404 for an unknown image; the image URL is the
      static file URL when a file name is stored, and otherwise the name itself, which is the
      IIIF URL when the name is missing. */
  function GetImageDetails(imageId: Option<string>, images: seq<Image>, staticUrl: string -> string): Result<ImageDetails>
  {
    if imageId.None? || imageId.value == "" then Failure(HttpError(400))
    else
      var found := FindImage(images, imageId.value);
      if found.None? then Failure(HttpError(404))
      else
        var im := found.value;
        var name := if im.imgName.None? then im.iiifUrl else im.imgName;
        var url := if Routes.Truthy(im.imgName) then Some(staticUrl("img/images/" + im.imgName.value)) else name;
        Success(ImageDetails(im.id, im.labelText, im.imgName, url))
  }

  /** The error cases and the URL choice. */
  lemma GetImageDetailsSpec(imageId: Option<string>, images: seq<Image>, staticUrl: string -> string)
    ensures var r := GetImageDetails(imageId, images, staticUrl);
      && (r == Failure(HttpError(400)) <==> imageId.None? || imageId.value == "")
      && (r == Failure(HttpError(404)) <==>
            imageId.Some? && imageId.value != "" && forall im :: im in images ==> IntToString(im.id) != imageId.value)
      && (r.Success? ==>
            var im := FindImage(images, imageId.value).value;
            && r.value.id == im.id && IntToString(im.id) == imageId.value
            && r.value.imgName == im.imgName
            && (im.imgName.None? ==> r.value.imgUrl == im.iiifUrl)
            && (Routes.Truthy(im.imgName) ==> r.value.imgUrl == Some(staticUrl("img/images/" + im.imgName.value)))
            && (im.imgName == Some("") ==> r.value.imgUrl == Some("")))
  {
    if imageId.Some? && imageId.value != "" && FindImage(images, imageId.value).None? {
      assert forall im :: im in images ==> IntToString(im.id) != imageId.value;
    }
  }

  // ---------------------------------------------------------------- ajax_printers

  /** SQLite's ascending order on a nullable column: NULL first, then string order. */
  predicate OptLe(a: Option<string>, b: Option<string>)
  {
    a.None? || (b.Some? && LexLe(a.value, b.value))
  }

  /** `ORDER BY lastname, firstnames`. */
  predicate PersonLe(p: Person, q: Person)
  {
    LexLe(p.lastname, q.lastname) && (p.lastname == q.lastname ==> OptLe(p.firstnames, q.firstnames))
  }

  lemma PersonLeTotal(p: Person, q: Person)
    ensures PersonLe(p, q) || PersonLe(q, p)
  {
    LexLeTotal(p.lastname, q.lastname);
    if p.firstnames.Some? && q.firstnames.Some? {
      LexLeTotal(p.firstnames.value, q.firstnames.value);
    }
  }

  lemma PersonLeTrans(p: Person, q: Person, r: Person)
    requires PersonLe(p, q) && PersonLe(q, r)
    ensures PersonLe(p, r)
  {
    LexLeTrans(p.lastname, q.lastname, r.lastname);
    if p.lastname == r.lastname {
      LexLeAntisym(p.lastname, q.lastname);
      if p.firstnames.Some? {
        LexLeTrans(p.firstnames.value, q.firstnames.value, r.firstnames.value);
      }
    }
  }

  predicate SortedPersons(s: seq<Person>)
  {
    forall i, j :: 0 <= i < j < |s| ==> PersonLe(s[i], s[j])
  }

  function Insert(p: Person, s: seq<Person>): seq<Person>
  {
    if s == [] then [p]
    else if PersonLe(p, s[0]) then [p] + s
    else [s[0]] + Insert(p, s[1..])
  }

  /** The database's ordering of the matching rows (an insertion sort stands for it). */
  function SortPersons(s: seq<Person>): seq<Person>
  {
    if s == [] then [] else Insert(s[0], SortPersons(s[1..]))
  }

  lemma {:induction false} InsertPerm(p: Person, s: seq<Person>)
    ensures multiset(Insert(p, s)) == multiset(s) + multiset{p}
  {
    if s != [] && !PersonLe(p, s[0]) {
      InsertPerm(p, s[1..]);
      assert s == [s[0]] + s[1..];
    }
  }

  lemma {:induction false} InsertMembers(p: Person, s: seq<Person>)
    ensures forall x :: x in Insert(p, s) <==> x == p || x in s
  {
    if s != [] && !PersonLe(p, s[0]) {
      InsertMembers(p, s[1..]);
      assert s == [s[0]] + s[1..];
    }
  }

  /** A person placed before a sorted sequence it precedes keeps it sorted. */
  lemma ConsSorted(a: Person, t: seq<Person>)
    requires SortedPersons(t)
    requires forall x :: x in t ==> PersonLe(a, x)
    ensures SortedPersons([a] + t)
  {
    var r := [a] + t;
    forall i, j | 0 <= i < j < |r| ensures PersonLe(r[i], r[j]) {
      if i == 0 {
        assert r[j] == t[j - 1] && t[j - 1] in t;
      } else {
        assert r[i] == t[i - 1] && r[j] == t[j - 1];
      }
    }
  }

  lemma {:induction false} InsertSorted(p: Person, s: seq<Person>)
    requires SortedPersons(s)
    ensures SortedPersons(Insert(p, s))
  {
    if s != [] {
      if PersonLe(p, s[0]) {
        forall x | x in s ensures PersonLe(p, x) {
          var k :| 0 <= k < |s| && s[k] == x;
          if k > 0 {
            PersonLeTrans(p, s[0], x);
          }
        }
        ConsSorted(p, s);
      } else {
        PersonLeTotal(p, s[0]);
        assert SortedPersons(s[1..]);
        InsertSorted(p, s[1..]);
        InsertMembers(p, s[1..]);
        forall x | x in Insert(p, s[1..]) ensures PersonLe(s[0], x) {
          if x != p {
            var k :| 0 <= k < |s[1..]| && s[1..][k] == x;
            assert s[k + 1] == x;
          }
        }
        ConsSorted(s[0], Insert(p, s[1..]));
      }
    }
  }

  lemma {:induction false} SortPersonsSpec(s: seq<Person>)
    ensures SortedPersons(SortPersons(s))
    ensures multiset(SortPersons(s)) == multiset(s)
  {
    if s != [] {
      SortPersonsSpec(s[1..]);
      InsertSorted(s[0], SortPersons(s[1..]));
      InsertPerm(s[0], SortPersons(s[1..]));
      assert s == [s[0]] + s[1..];
    }
  }

  /** The picker's match: last name or first names contain the lowercased term, ignoring
      case; a person without first names matches on the last name only. */
  predicate MatchesTerm(p: Person, search: string)
  {
    Routes.LikeContains(Some(p.lastname), Lower(search)) || Routes.LikeContains(p.firstnames, Lower(search))
  }

  function Matching(persons: seq<Person>, search: string): (r: seq<Person>)
    ensures forall x :: x in r <==> x in persons && MatchesTerm(x, search)
    ensures multiset(r) <= multiset(persons)
  {
    if persons == [] then []
    else
      var rest := Matching(persons[1..], search);
      assert persons == [persons[0]] + persons[1..];
      (if MatchesTerm(persons[0], search) then [persons[0]] else []) + rest
  }

  const PickerLimit := 20

  /** The query of `ajax_printers`: matching persons, ordered, at most twenty. */
  function PrinterQuery(persons: seq<Person>, search: string): seq<Person>
  {
    var sorted := SortPersons(Matching(persons, search));
    if |sorted| <= PickerLimit then sorted else sorted[..PickerLimit]
  }

  /** At most twenty matching persons, in (lastname, firstnames) order, and every matching
      person left out sorts after every person kept. */
  lemma PrinterQuerySpec(persons: seq<Person>, search: string)
    ensures var r := PrinterQuery(persons, search);
      var m := Matching(persons, search);
      && |r| == (if |m| <= PickerLimit then |m| else PickerLimit)
      && SortedPersons(r)
      && (forall x :: x in r ==> x in persons && MatchesTerm(x, search))
      && multiset(r) <= multiset(m)
      && (forall x, y :: x in multiset(m) - multiset(r) && y in r ==> PersonLe(y, x))
  {
    var m := Matching(persons, search);
    var sorted := SortPersons(m);
    SortPersonsSpec(m);
    var r := PrinterQuery(persons, search);
    var k := |r|;
    assert r == sorted[..k];
    TakeSorted(sorted, k);
    forall x | x in r ensures x in persons && MatchesTerm(x, search) {
      assert x in multiset(sorted);
    }
  }

  /** The first `k` of a sorted list are sorted and come before every one of the rest. */
  lemma TakeSorted(sorted: seq<Person>, k: nat)
    requires SortedPersons(sorted) && k <= |sorted|
    ensures SortedPersons(sorted[..k])
    ensures multiset(sorted[..k]) <= multiset(sorted)
    ensures multiset(sorted) - multiset(sorted[..k]) == multiset(sorted[k..])
    ensures forall x, y :: x in multiset(sorted[k..]) && y in sorted[..k] ==> PersonLe(y, x)
  {
    assert sorted == sorted[..k] + sorted[k..];
    assert multiset(sorted) == multiset(sorted[..k]) + multiset(sorted[k..]);
    forall x, y | x in multiset(sorted[k..]) && y in sorted[..k] ensures PersonLe(y, x) {
      var i :| 0 <= i < |sorted[k..]| && sorted[k..][i] == x;
      var j :| 0 <= j < k && sorted[..k][j] == y;
      assert sorted[j] == y && sorted[k + i] == x;
    }
  }

  /** One option of the picker: the key and the person's printed form. */
  datatype PickerOption = PickerOption(id: int, text: string)

  /** `ajax_printers`: the options of the query's persons, in order. */
  function AjaxPrinters(persons: seq<Person>, search: Option<string>, repr: Person -> string): (r: seq<PickerOption>)
    ensures |r| <= PickerLimit
    ensures var q := PrinterQuery(persons, if search.Some? then search.value else "");
      |r| == |q| && forall i :: 0 <= i < |r| ==> r[i] == PickerOption(q[i].id, repr(q[i]))
  {
    var q := PrinterQuery(persons, if search.Some? then search.value else "");
    seq(|q|, i requires 0 <= i < |q| => PickerOption(q[i].id, repr(q[i])))
  }

  // ---------------------------------------------------------------- get_patent_relations

  /** One entry of a group: the related person and the relation type. */
  datatype RelationEntry = RelationEntry(personRelatedId: int, relationType: string)

  function EntryOf(r: PatentRelation): RelationEntry
  {
    RelationEntry(r.personRelatedId, r.relType)
  }

  /** The person's relation rows, in table order. */
  function RelationsOf(table: seq<PatentRelation>, personId: int): (r: seq<PatentRelation>)
    ensures forall x :: x in r <==> x in table && x.personId == personId
  {
    if table == [] then []
    else
      assert table == [table[0]] + table[1..];
      (if table[0].personId == personId then [table[0]] else []) + RelationsOf(table[1..], personId)
  }

  /** The patents in order of first appearance. */
  function PatentOrder(rels: seq<PatentRelation>): seq<int>
  {
    if rels == [] then []
    else
      var order := PatentOrder(rels[..|rels| - 1]);
      var pid := rels[|rels| - 1].patentId;
      if pid in order then order else order + [pid]
  }

  /** The entries of one patent's group, in row order. */
  function GroupOf(rels: seq<PatentRelation>, patentId: int): seq<RelationEntry>
  {
    if rels == [] then []
    else
      var last := rels[|rels| - 1];
      GroupOf(rels[..|rels| - 1], patentId) + (if last.patentId == patentId then [EntryOf(last)] else [])
  }

  predicate Distinct(s: seq<int>)
  {
    forall i, j :: 0 <= i < j < |s| ==> s[i] != s[j]
  }

  /** Each patent appears once in the order, and exactly the patents of the rows appear. */
  lemma {:induction false} PatentOrderSpec(rels: seq<PatentRelation>)
    ensures Distinct(PatentOrder(rels))
    ensures forall pid :: pid in PatentOrder(rels) <==> exists k :: 0 <= k < |rels| && rels[k].patentId == pid
  {
    if rels != [] {
      var init := rels[..|rels| - 1];
      PatentOrderSpec(init);
      forall pid ensures pid in PatentOrder(rels) <==> exists k :: 0 <= k < |rels| && rels[k].patentId == pid {
        if exists k :: 0 <= k < |init| && init[k].patentId == pid {
          var k :| 0 <= k < |init| && init[k].patentId == pid;
          assert rels[k] == init[k];
        }
        if exists k :: 0 <= k < |rels| && rels[k].patentId == pid {
          var k :| 0 <= k < |rels| && rels[k].patentId == pid;
          if k < |init| {
            assert init[k] == rels[k];
          }
        }
      }
    }
  }

  /** The total size of the groups of the listed patents. */
  function GroupSizes(rels: seq<PatentRelation>, order: seq<int>): nat
  {
    if order == [] then 0 else |GroupOf(rels, order[0])| + GroupSizes(rels, order[1..])
  }

  lemma {:induction false} GroupSizesAppendRow(init: seq<PatentRelation>, last: PatentRelation, order: seq<int>)
    requires Distinct(order)
    ensures GroupSizes(init + [last], order) == GroupSizes(init, order) + (if last.patentId in order then 1 else 0)
  {
    assert (init + [last])[..|init + [last]| - 1] == init;
    if order != [] {
      assert Distinct(order[1..]) by {
        forall i, j | 0 <= i < j < |order[1..]| ensures order[1..][i] != order[1..][j] {
          assert order[1..][i] == order[i + 1] && order[1..][j] == order[j + 1];
        }
      }
      GroupSizesAppendRow(init, last, order[1..]);
      if last.patentId == order[0] {
        assert last.patentId !in order[1..] by {
          forall i | 0 <= i < |order[1..]| ensures order[1..][i] != order[0] {
            assert order[1..][i] == order[i + 1];
          }
        }
      }
      assert last.patentId in order <==> last.patentId == order[0] || last.patentId in order[1..] by {
        assert order == [order[0]] + order[1..];
      }
    }
  }

  lemma {:induction false} GroupSizesAppendKey(rels: seq<PatentRelation>, order: seq<int>, pid: int)
    ensures GroupSizes(rels, order + [pid]) == GroupSizes(rels, order) + |GroupOf(rels, pid)|
  {
    if order != [] {
      assert (order + [pid])[1..] == order[1..] + [pid];
      GroupSizesAppendKey(rels, order[1..], pid);
    } else {
      assert GroupSizes(rels, [pid]) == |GroupOf(rels, pid)| + GroupSizes(rels, []);
    }
  }

  /** A patent without rows has an empty group. */
  lemma {:induction false} GroupOfAbsent(rels: seq<PatentRelation>, pid: int)
    requires forall k :: 0 <= k < |rels| ==> rels[k].patentId != pid
    ensures GroupOf(rels, pid) == []
  {
    if rels != [] {
      GroupOfAbsent(rels[..|rels| - 1], pid);
    }
  }

  /** Every row lands in exactly one group: the groups' sizes add up to the number of rows. */
  lemma {:induction false} GroupsPartitionRows(rels: seq<PatentRelation>)
    ensures GroupSizes(rels, PatentOrder(rels)) == |rels|
  {
    if rels != [] {
      var init := rels[..|rels| - 1];
      var last := rels[|rels| - 1];
      assert rels == init + [last];
      GroupsPartitionRows(init);
      var order := PatentOrder(init);
      PatentOrderSpec(init);
      GroupSizesAppendRow(init, last, order);
      if last.patentId !in order {
        GroupSizesAppendKey(rels, order, last.patentId);
        assert forall k :: 0 <= k < |init| ==> init[k].patentId != last.patentId;
        GroupOfAbsent(init, last.patentId);
      }
    }
  }

  /** The keys "0" to "n-1". */
  function PositionKeys(n: nat): set<string>
  {
    set i | 0 <= i < n :: NatToString(i)
  }

  /** The JSON object the endpoint returns: group `i` under the key `str(i)`. */
  function Reindex(order: seq<int>, groups: map<int, seq<RelationEntry>>): (r: map<string, seq<RelationEntry>>)
    requires forall i :: 0 <= i < |order| ==> order[i] in groups
    ensures forall i :: 0 <= i < |order| ==> NatToString(i) in r && r[NatToString(i)] == groups[order[i]]
    ensures r.Keys == PositionKeys(|order|)
  {
    map i | 0 <= i < |order| :: NatToString(i) := groups[order[i]]
  }

  /** The grouping loop of `get_patent_relations`: a dict from patent to entries, whose
      insertion order is kept as `order`. */
  method GroupRelations(rels: seq<PatentRelation>) returns (order: seq<int>, groups: map<int, seq<RelationEntry>>)
    ensures order == PatentOrder(rels)
    ensures forall i :: 0 <= i < |order| ==> order[i] in groups && groups[order[i]] == GroupOf(rels, order[i])
  {
    order := [];
    groups := map[];
    for n := 0 to |rels|
      invariant order == PatentOrder(rels[..n])
      invariant forall pid :: pid in groups <==> pid in order
      invariant forall pid :: pid in groups ==> groups[pid] == GroupOf(rels[..n], pid)
    {
      var relation := rels[n];
      var prefix := rels[..n + 1];
      assert prefix[..n] == rels[..n] && prefix[n] == relation;
      if relation.patentId !in groups {
        PatentOrderSpec(rels[..n]);
        GroupOfAbsent(rels[..n], relation.patentId);
        groups := groups[relation.patentId := []];
        order := order + [relation.patentId];
      }
      groups := groups[relation.patentId := groups[relation.patentId] + [EntryOf(relation)]];
    }
    assert rels[..|rels|] == rels;
    forall i | 0 <= i < |order| ensures order[i] in groups && groups[order[i]] == GroupOf(rels, order[i]) {
      var pid := order[i];
      assert pid in order;
      assert pid in groups;
    }
  }

  /** `get_patent_relations`: the person's relation rows grouped by patent in order of first
      appearance, each group in row order, the groups keyed "0" to "n-1". */
  method GetPatentRelations(table: seq<PatentRelation>, personId: int) returns (r: map<string, seq<RelationEntry>>)
    ensures var rels := RelationsOf(table, personId);
      var order := PatentOrder(rels);
      && r.Keys == PositionKeys(|order|)
      && (forall i :: 0 <= i < |order| ==> NatToString(i) in r && r[NatToString(i)] == GroupOf(rels, order[i]))
  {
    var rels := RelationsOf(table, personId);
    var order, groups := GroupRelations(rels);
    r := Reindex(order, groups);
  }
}
