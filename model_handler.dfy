/**
  * The admin form reconciliation of api/admin/model_handler.py. After a printer is saved from
  * the admin form, the handler groups the extra form fields by patent block, pins the image
  * chosen for each patent and rewrites the patent's printer relations so that they are exactly
  * the ones the form lists.
  *
  * The ORM session is a class holding the three tables the handler reads and writes; the
  * handler is a class holding the session, the printer's identifier, the submitted form and
  * the grouped data.
  */
module ModelHandler {
  import opened Wrappers
  import opened Text
  import opened Records
  import PinRepair

  // ---------------------------------------------------------------- grouping the form

  /** `request.form.to_dict(flat=False)`: every field name with the list of its values. */
  type FormData = map<string, seq<string>>

  /** The fields of one patent block of the form. */
  datatype FormGroup = FormGroup(
    patentId: int,
    pinnedImage: Option<string>,
    printerRelations: seq<string>,
    relationTypes: seq<string>)

  function IdKey(i: nat): string { "patents-" + NatToString(i) + "-id" }
  function PinnedKey(i: nat): string { "patents-" + NatToString(i) + "-images-pinned-image" }
  function PrintersKey(i: nat): string { "dynamic_printers[" + NatToString(i) + "][]" }
  function TypesKey(i: nat): string { "dynamic_relation_types[" + NatToString(i) + "][]" }

  /** `form_data.get(key, [None])[0]`: nothing for an absent field; indexing an empty list
      raises IndexError. */
  function FirstValue(form: FormData, key: string): Result<Option<string>>
  {
    if key !in form then Success(None)
    else if form[key] == [] then Failure(IndexError)
    else Success(Some(form[key][0]))
  }

  /** `form_data.get(key, [])`. */
  function ListValue(form: FormData, key: string): seq<string>
  {
    if key in form then form[key] else []
  }

  /** `int(value or 0)`: a missing or empty value reads as 0; `None` where `int` raises
      ValueError. */
  function SubmittedPatentId(value: Option<string>): Option<int>
  {
    if value.None? || value.value == "" then Some(0) else PyInt(value.value)
  }

  /** One turn of the grouping loop for block `i`: `Success(None)` when the block is skipped
      (an identifier `int` rejects, or one that is not among the printer's patents), a
      failure when an IndexError escapes the `try`. */
  function GroupEntry(form: FormData, patentsId: seq<int>, i: nat): Result<Option<FormGroup>>
  {
    match FirstValue(form, IdKey(i))
    case Failure(e) => Failure(e)
    case Success(v) =>
      match SubmittedPatentId(v)
      case None => Success(None)
      case Some(patentId) =>
        if patentId !in patentsId then Success(None)
        else
          match FirstValue(form, PinnedKey(i))
          case Failure(e) => Failure(e)
          case Success(pinned) =>
            Success(Some(FormGroup(patentId, pinned, ListValue(form, PrintersKey(i)), ListValue(form, TypesKey(i)))))
  }

  /** Does block `i` raise? */
  predicate EntryFails(form: FormData, patentsId: seq<int>, i: nat)
  {
    GroupEntry(form, patentsId, i).Failure?
  }

  /** Is block `i` kept? */
  predicate EntryKept(form: FormData, patentsId: seq<int>, i: nat)
  {
    GroupEntry(form, patentsId, i).Success? && GroupEntry(form, patentsId, i).value.Some?
  }

  /** The grouped data: the kept blocks by their index, or the error when one block raises. */
  function GroupForm(form: FormData, patentsId: seq<int>): Result<map<nat, FormGroup>>
  {
    if exists i: nat :: i < |patentsId| && EntryFails(form, patentsId, i) then Failure(IndexError)
    else Success(map i: nat | i < |patentsId| && EntryKept(form, patentsId, i) :: GroupEntry(form, patentsId, i).value.value)
  }

  /** What the loop of `_group_form_data` has built after the blocks below `i`: none of them
      raised, and the kept ones are grouped by their index. */
  ghost predicate GroupedUpTo(form: FormData, patentsId: seq<int>, i: nat, grouped: map<nat, FormGroup>)
  {
    && (forall j: nat :: j < i ==> !EntryFails(form, patentsId, j))
    && (forall j: nat :: j in grouped <==> j < i && EntryKept(form, patentsId, j))
    && (forall j: nat :: j in grouped ==> grouped[j] == GroupEntry(form, patentsId, j).value.value)
  }

  /** `_group_form_data`: the loop over the block indices `0 .. len(patents_id) - 1`. */
  method GroupFormData(form: FormData, patentsId: seq<int>) returns (r: Result<map<nat, FormGroup>>)
    ensures r == GroupForm(form, patentsId)
  {
    var grouped: map<nat, FormGroup> := map[];
    for i := 0 to |patentsId|
      invariant GroupedUpTo(form, patentsId, i, grouped)
    {
      var entry := GroupEntry(form, patentsId, i);
      if entry.Failure? {
        assert EntryFails(form, patentsId, i);
        return Failure(IndexError);
      }
      var next := if entry.value.Some? then grouped[i := entry.value.value] else grouped;
      GroupedStep(form, patentsId, i, grouped, next);
      grouped := next;
    }
    GroupedAll(form, patentsId, grouped);
    r := Success(grouped);
  }

  lemma GroupedStep(form: FormData, patentsId: seq<int>, i: nat, grouped: map<nat, FormGroup>, next: map<nat, FormGroup>)
    requires GroupedUpTo(form, patentsId, i, grouped) && GroupEntry(form, patentsId, i).Success?
    requires next == if GroupEntry(form, patentsId, i).value.Some? then grouped[i := GroupEntry(form, patentsId, i).value.value] else grouped
    ensures GroupedUpTo(form, patentsId, i + 1, next)
  {
    assert !EntryFails(form, patentsId, i);
    assert EntryKept(form, patentsId, i) <==> GroupEntry(form, patentsId, i).value.Some?;
  }

  lemma GroupedAll(form: FormData, patentsId: seq<int>, grouped: map<nat, FormGroup>)
    requires GroupedUpTo(form, patentsId, |patentsId|, grouped)
    ensures GroupForm(form, patentsId) == Success(grouped)
  {
    var spec := map i: nat | i < |patentsId| && EntryKept(form, patentsId, i) :: GroupEntry(form, patentsId, i).value.value;
    assert grouped.Keys == spec.Keys;
    assert grouped == spec;
  }

  /** The grouped data has a key only for a block index below `len(patents_id)`; each kept
      block names one of the printer's patents, and a list or pinned image the form does not
      send is empty or missing. */
  lemma GroupFormSpec(form: FormData, patentsId: seq<int>)
    ensures GroupForm(form, patentsId).Failure? <==>
      exists i: nat :: i < |patentsId| && EntryFails(form, patentsId, i)
    ensures GroupForm(form, patentsId).Failure? ==> GroupForm(form, patentsId).error == IndexError
    ensures GroupForm(form, patentsId).Success? ==>
      var m := GroupForm(form, patentsId).value;
      forall i :: i in m ==>
        && i < |patentsId|
        && m[i].patentId in patentsId
        && (PrintersKey(i) !in form ==> m[i].printerRelations == [])
        && (TypesKey(i) !in form ==> m[i].relationTypes == [])
        && (PinnedKey(i) !in form ==> m[i].pinnedImage.None?)
  {
  }

  /** A block whose identifier field is missing or empty reads as patent 0: it is kept only
      when 0 is one of the printer's patent identifiers. */
  lemma MissingIdReadsAsZero(form: FormData, patentsId: seq<int>, i: nat)
    requires IdKey(i) !in form || form[IdKey(i)] == [""]
    requires PinnedKey(i) !in form
    ensures GroupEntry(form, patentsId, i).Success?
    ensures EntryKept(form, patentsId, i) <==> 0 in patentsId
    ensures EntryKept(form, patentsId, i) ==> GroupEntry(form, patentsId, i).value.value.patentId == 0
  {
  }

  /** An identifier `int` rejects skips the block instead of raising. */
  lemma NonNumericIdSkipped(form: FormData, patentsId: seq<int>, i: nat)
    requires IdKey(i) in form && form[IdKey(i)] != [] && form[IdKey(i)][0] != ""
    requires PyInt(form[IdKey(i)][0]).None?
    ensures GroupEntry(form, patentsId, i) == Success(None)
  {
  }

  /** The patents of the printer: `[p.id for p in patents if p.person_id == model_id]`. */
  function PatentIdsOf(patents: seq<Patent>, personId: int): (r: seq<int>)
    ensures forall id :: id in r <==> exists k :: 0 <= k < |patents| && patents[k].personId == personId && patents[k].id == id
  {
    if patents == [] then []
    else
      var rest := PatentIdsOf(patents[1..], personId);
      assert forall k :: 1 <= k < |patents| ==> patents[k] == patents[1..][k - 1];
      (if patents[0].personId == personId then [patents[0].id] else []) + rest
  }

  // ---------------------------------------------------------------- pinning

  /** The `.first()` row of `patent_has_images` for the patent and image, in table order;
      -1 when there is none. */
  function FirstImageIndex(rows: seq<PatentImage>, patentId: int, imageId: int): (k: int)
    ensures -1 <= k < |rows|
    ensures k >= 0 ==> rows[k].patentId == patentId && rows[k].imageId == imageId
    ensures forall j :: 0 <= j < |rows| && (k < 0 || j < k) ==> !(rows[j].patentId == patentId && rows[j].imageId == imageId)
  {
    if rows == [] then -1
    else if rows[0].patentId == patentId && rows[0].imageId == imageId then 0
    else
      var k := FirstImageIndex(rows[1..], patentId, imageId);
      assert forall j :: 1 <= j < |rows| ==> rows[j] == rows[1..][j - 1];
      if k < 0 then -1 else k + 1
  }

  /** The image rows after pinning image `imageId` on a patent: among the patent's rows only
      the first one showing that image is pinned. */
  function PinSelected(rows: seq<PatentImage>, patentId: int, imageId: int): (r: seq<PatentImage>)
    ensures |r| == |rows|
  {
    var k := FirstImageIndex(rows, patentId, imageId);
    seq(|rows|, i requires 0 <= i < |rows| =>
      if rows[i].patentId == patentId then rows[i].(isPinned := i == k) else rows[i])
  }

  /** Only pin flags change and only on the patent's rows; a row of the patent is pinned
      exactly when it shows the selected image and no earlier row of the patent does. */
  lemma PinSelectedSpec(rows: seq<PatentImage>, patentId: int, imageId: int)
    ensures var r := PinSelected(rows, patentId, imageId);
      && (forall i :: 0 <= i < |rows| ==> r[i].(isPinned := rows[i].isPinned) == rows[i])
      && (forall i :: 0 <= i < |rows| && rows[i].patentId != patentId ==> r[i] == rows[i])
      && (forall i :: 0 <= i < |rows| && rows[i].patentId == patentId ==>
            (r[i].isPinned <==>
               rows[i].imageId == imageId
               && forall j :: 0 <= j < i ==> !(rows[j].patentId == patentId && rows[j].imageId == imageId)))
  {
    var r := PinSelected(rows, patentId, imageId);
    var k := FirstImageIndex(rows, patentId, imageId);
    forall i | 0 <= i < |rows| && rows[i].patentId == patentId
      ensures r[i].isPinned <==>
        rows[i].imageId == imageId
        && forall j :: 0 <= j < i ==> !(rows[j].patentId == patentId && rows[j].imageId == imageId)
    {
      if i < k {
        assert !(rows[i].patentId == patentId && rows[i].imageId == imageId);
      } else if i > k && k >= 0 {
        assert rows[k].patentId == patentId && rows[k].imageId == imageId;
      }
    }
  }

  /** When some row of the patent shows the selected image, exactly one row of the patent is
      pinned afterwards; otherwise none is. */
  lemma PinSelectedExactlyOne(rows: seq<PatentImage>, patentId: int, imageId: int)
    ensures var r := PinSelected(rows, patentId, imageId);
      && (forall i, j ::
            (0 <= i < |r| && 0 <= j < |r| && r[i].patentId == patentId && r[j].patentId == patentId
             && r[i].isPinned && r[j].isPinned) ==> i == j)
      && ((exists i :: 0 <= i < |rows| && rows[i].patentId == patentId && rows[i].imageId == imageId) <==>
            (exists i :: 0 <= i < |r| && r[i].patentId == patentId && r[i].isPinned))
  {
    var r := PinSelected(rows, patentId, imageId);
    var k := FirstImageIndex(rows, patentId, imageId);
    if exists i :: 0 <= i < |rows| && rows[i].patentId == patentId && rows[i].imageId == imageId {
      assert k >= 0;
      assert r[k].patentId == patentId && r[k].isPinned;
    }
  }

  /** Pinning keeps the single-pinned-image rule of the whole table. */
  lemma PinSelectedKeepsRule(rows: seq<PatentImage>, patentId: int, imageId: int)
    requires PinRepair.AtMostOnePinned(rows)
    ensures PinRepair.AtMostOnePinned(PinSelected(rows, patentId, imageId))
  {
    PinSelectedExactlyOne(rows, patentId, imageId);
  }

  /** A patent without image rows is left as it is. */
  lemma PinSelectedNoRelations(rows: seq<PatentImage>, patentId: int, imageId: int)
    requires forall i :: 0 <= i < |rows| ==> rows[i].patentId != patentId
    ensures PinSelected(rows, patentId, imageId) == rows
  {
  }

  /** Pinning the same image twice is pinning it once. */
  lemma {:induction false} PinSelectedIdempotent(rows: seq<PatentImage>, patentId: int, imageId: int)
    ensures PinSelected(PinSelected(rows, patentId, imageId), patentId, imageId) == PinSelected(rows, patentId, imageId)
  {
    var r := PinSelected(rows, patentId, imageId);
    PinSelectedSpec(rows, patentId, imageId);
    PinSelectedSpec(r, patentId, imageId);
    assert forall i :: 0 <= i < |rows| ==> r[i].patentId == rows[i].patentId && r[i].imageId == rows[i].imageId by {
      forall i | 0 <= i < |rows| ensures r[i].patentId == rows[i].patentId && r[i].imageId == rows[i].imageId {
        assert r[i].(isPinned := rows[i].isPinned) == rows[i];
      }
    }
  }

  /** One block's turn in `_update_pinned_images`: a falsy selection does nothing, a
      selection `int` rejects raises ValueError. */
  function PinGroup(rows: seq<PatentImage>, g: FormGroup): (seq<PatentImage>, Outcome)
  {
    if g.pinnedImage.None? || g.pinnedImage.value == "" then (rows, Pass)
    else
      match PyInt(g.pinnedImage.value)
      case None => (rows, Fail(ValueError))
      case Some(imageId) => (PinSelected(rows, g.patentId, imageId), Pass)
  }

  /** The blocks with index below `n`, in index order (the insertion order of the grouped
      data), stopping at the first that raises. */
  function PinGroups(rows: seq<PatentImage>, groups: map<nat, FormGroup>, n: nat): (seq<PatentImage>, Outcome)
  {
    if n == 0 then (rows, Pass)
    else
      var (before, r) := PinGroups(rows, groups, n - 1);
      if r.Fail? || n - 1 !in groups then (before, r) else PinGroup(before, groups[n - 1])
  }

  /** One more block: a block that is present is pinned after the ones before it. */
  lemma PinGroupsStep(rows: seq<PatentImage>, groups: map<nat, FormGroup>, i: nat, before: seq<PatentImage>)
    requires PinGroups(rows, groups, i) == (before, Pass)
    ensures PinGroups(rows, groups, i + 1) == if i in groups then PinGroup(before, groups[i]) else (before, Pass)
  {
  }

  lemma {:induction false} PinGroupsFailStays(rows: seq<PatentImage>, groups: map<nat, FormGroup>, i: nat, n: nat)
    requires i <= n && PinGroups(rows, groups, i).1.Fail?
    ensures PinGroups(rows, groups, n) == PinGroups(rows, groups, i)
    decreases n
  {
    if n > i {
      PinGroupsFailStays(rows, groups, i, n - 1);
    }
  }

  /** The whole update keeps the single-pinned-image rule, and a block whose selection is
      missing or empty changes nothing. */
  lemma {:induction false} PinGroupsKeepRule(rows: seq<PatentImage>, groups: map<nat, FormGroup>, n: nat)
    requires PinRepair.AtMostOnePinned(rows)
    ensures PinRepair.AtMostOnePinned(PinGroups(rows, groups, n).0)
  {
    if n > 0 {
      PinGroupsKeepRule(rows, groups, n - 1);
      var (before, r) := PinGroups(rows, groups, n - 1);
      if r.Pass? && n - 1 in groups {
        var g := groups[n - 1];
        if g.pinnedImage.Some? && g.pinnedImage.value != "" && PyInt(g.pinnedImage.value).Some? {
          PinSelectedKeepsRule(before, g.patentId, PyInt(g.pinnedImage.value).value);
        }
      }
    }
  }

  // ---------------------------------------------------------------- relations

  /** Primary keys are distinct and below the key the next insert receives. */
  predicate RelationsValid(rows: seq<PatentRelation>, nextId: int)
  {
    && (forall i, j :: 0 <= i < j < |rows| ==> rows[i].id != rows[j].id)
    && (forall i :: 0 <= i < |rows| ==> rows[i].id < nextId)
  }

  /** The `filter_by(patent_id=…, person_id=…, person_related_id=…, type=…)` condition. */
  predicate Matches(row: PatentRelation, patentId: int, modelId: int, printerId: int, relType: string)
  {
    row.patentId == patentId && row.personId == modelId && row.personRelatedId == printerId && row.relType == relType
  }

  /** The `.first()` matching relation row in table order; -1 when there is none. */
  function FirstRelationIndex(rows: seq<PatentRelation>, patentId: int, modelId: int, printerId: int, relType: string): (k: int)
    ensures -1 <= k < |rows|
    ensures k >= 0 ==> Matches(rows[k], patentId, modelId, printerId, relType)
    ensures forall j :: 0 <= j < |rows| && (k < 0 || j < k) ==> !Matches(rows[j], patentId, modelId, printerId, relType)
  {
    if rows == [] then -1
    else if Matches(rows[0], patentId, modelId, printerId, relType) then 0
    else
      var k := FirstRelationIndex(rows[1..], patentId, modelId, printerId, relType);
      assert forall j :: 1 <= j < |rows| ==> rows[j] == rows[1..][j - 1];
      if k < 0 then -1 else k + 1
  }

  /** The relation rows, the next key, and `final_relations_id` while the form's entries are
      handled. */
  datatype RelState = RelState(rows: seq<PatentRelation>, nextId: int, finalIds: seq<int>)

  /** `_add_or_update_relation`: reuse the first matching row or insert one, and record the
      row's key. */
  function AddOrUpdate(s: RelState, modelId: int, patentId: int, printerId: int, relType: string): RelState
  {
    var k := FirstRelationIndex(s.rows, patentId, modelId, printerId, relType);
    if k >= 0 then s.(finalIds := s.finalIds + [s.rows[k].id])
    else RelState(s.rows + [PatentRelation(s.nextId, patentId, modelId, printerId, relType)], s.nextId + 1, s.finalIds + [s.nextId])
  }

  /** An existing matching row is reused and nothing is inserted; otherwise exactly one
      matching row with a fresh key is appended. Either way the handled row's key is appended
      to the recorded keys. */
  lemma AddOrUpdateSpec(s: RelState, modelId: int, patentId: int, printerId: int, relType: string)
    requires RelationsValid(s.rows, s.nextId)
    ensures var t := AddOrUpdate(s, modelId, patentId, printerId, relType);
      && RelationsValid(t.rows, t.nextId)
      && |t.finalIds| == |s.finalIds| + 1 && t.finalIds[..|s.finalIds|] == s.finalIds
      && (exists k :: 0 <= k < |t.rows| && t.rows[k].id == t.finalIds[|s.finalIds|]
                      && Matches(t.rows[k], patentId, modelId, printerId, relType))
      && ((exists j :: 0 <= j < |s.rows| && Matches(s.rows[j], patentId, modelId, printerId, relType)) ==>
            t.rows == s.rows && t.nextId == s.nextId)
      && (!(exists j :: 0 <= j < |s.rows| && Matches(s.rows[j], patentId, modelId, printerId, relType)) ==>
            t.rows == s.rows + [PatentRelation(s.nextId, patentId, modelId, printerId, relType)]
            && t.nextId == s.nextId + 1)
  {
    var t := AddOrUpdate(s, modelId, patentId, printerId, relType);
    var k := FirstRelationIndex(s.rows, patentId, modelId, printerId, relType);
    if k >= 0 {
      assert t.rows[k].id == t.finalIds[|s.finalIds|];
    } else {
      assert t.rows[|s.rows|].id == t.finalIds[|s.finalIds|];
    }
  }

  /** `zip(printer_relations, relation_types)`: truncated to the shorter list. */
  function Zip(a: seq<string>, b: seq<string>): (r: seq<(string, string)>)
    ensures |r| == if |a| <= |b| then |a| else |b|
  {
    var n := if |a| <= |b| then |a| else |b|;
    seq(n, k requires 0 <= k < n => (a[k], b[k]))
  }

  /** What the loop makes of a printer entry: blank entries are skipped, the others go
      through `int`. */
  datatype EntryKind = Blank | NotAnInteger | PrinterEntry(printerId: int)

  function Classify(printer: string): EntryKind
  {
    if Strip(printer) == [] then Blank
    else
      match PyInt(printer)
      case None => NotAnInteger
      case Some(v) => PrinterEntry(v)
  }

  /** A form entry as the loop sees it: what became of the printer entry, and the type. */
  type Item = (EntryKind, string)

  function Classified(entries: seq<(string, string)>): (r: seq<Item>)
    ensures |r| == |entries|
  {
    seq(|entries|, k requires 0 <= k < |entries| => (Classify(entries[k].0), entries[k].1))
  }

  /** The loop over the entries: a blank printer entry is skipped, one `int` rejects stops
      the loop with ValueError (`false`), the rows already inserted staying. */
  function RunEntries(s: RelState, modelId: int, patentId: int, items: seq<Item>): (RelState, bool)
    decreases |items|
  {
    if items == [] then (s, true)
    else
      match items[0].0
      case Blank => RunEntries(s, modelId, patentId, items[1..])
      case NotAnInteger => (s, false)
      case PrinterEntry(printerId) =>
        RunEntries(AddOrUpdate(s, modelId, patentId, printerId, items[0].1), modelId, patentId, items[1..])
  }

  /** The (printer, type) pairs the non-blank entries name. */
  function Pairs(items: seq<Item>): set<(int, string)>
    decreases |items|
  {
    if items == [] then {}
    else (if items[0].0.PrinterEntry? then {(items[0].0.printerId, items[0].1)} else {}) + Pairs(items[1..])
  }

  /** Some non-blank printer entry is not an integer. */
  predicate SomeEntryInvalid(items: seq<Item>)
  {
    exists k :: 0 <= k < |items| && items[k].0 == NotAnInteger
  }

  /** The loop raises exactly when some non-blank printer entry is not an integer. */
  lemma {:induction false} RunEntriesFails(s: RelState, modelId: int, patentId: int, items: seq<Item>)
    ensures !RunEntries(s, modelId, patentId, items).1 <==> SomeEntryInvalid(items)
    decreases |items|
  {
    if items != [] {
      var rest := items[1..];
      var kind := items[0].0;
      if kind.Blank? {
        RunEntriesFails(s, modelId, patentId, rest);
      } else if kind.PrinterEntry? {
        RunEntriesFails(AddOrUpdate(s, modelId, patentId, kind.printerId, items[0].1), modelId, patentId, rest);
      }
      if kind != NotAnInteger {
        if SomeEntryInvalid(items) {
          var k :| 0 <= k < |items| && items[k].0 == NotAnInteger;
          assert rest[k - 1] == items[k];
        }
        if SomeEntryInvalid(rest) {
          var k :| 0 <= k < |rest| && rest[k].0 == NotAnInteger;
          assert rest[k] == items[k + 1];
        }
      }
    }
  }

  /** `[r.id for r in relations]` for the rows of the patent, in table order. */
  function RelationIds(rows: seq<PatentRelation>, patentId: int): (r: seq<int>)
    ensures forall id :: id in r <==> exists k :: 0 <= k < |rows| && rows[k].patentId == patentId && rows[k].id == id
  {
    if rows == [] then []
    else
      var rest := RelationIds(rows[1..], patentId);
      assert forall k :: 1 <= k < |rows| ==> rows[k] == rows[1..][k - 1];
      (if rows[0].patentId == patentId then [rows[0].id] else []) + rest
  }

  /** The keys of the patent's former rows that no entry handled. */
  function Obsolete(relationsId: seq<int>, finalIds: seq<int>): set<int>
  {
    set id | id in relationsId && id !in finalIds
  }

  /** The table after deleting the rows whose key is in `drop`. */
  function KeepRows(rows: seq<PatentRelation>, drop: set<int>): seq<PatentRelation>
  {
    if rows == [] then []
    else (if rows[0].id in drop then [] else [rows[0]]) + KeepRows(rows[1..], drop)
  }

  lemma {:induction false} KeepRowsMember(rows: seq<PatentRelation>, drop: set<int>, row: PatentRelation)
    ensures row in KeepRows(rows, drop) <==> row in rows && row.id !in drop
  {
    if rows != [] {
      KeepRowsMember(rows[1..], drop, row);
      assert rows == [rows[0]] + rows[1..];
    }
  }

  lemma {:induction false} KeepRowsValid(rows: seq<PatentRelation>, drop: set<int>, nextId: int)
    requires RelationsValid(rows, nextId)
    ensures RelationsValid(KeepRows(rows, drop), nextId)
  {
    if rows != [] {
      var rest := rows[1..];
      assert RelationsValid(rest, nextId) by {
        assert forall k :: 0 <= k < |rest| ==> rest[k] == rows[k + 1];
      }
      KeepRowsValid(rest, drop, nextId);
      var kept := KeepRows(rest, drop);
      forall k | 0 <= k < |kept| ensures kept[k].id != rows[0].id && kept[k].id < nextId {
        KeepRowsMember(rest, drop, kept[k]);
        var m :| 0 <= m < |rest| && rest[m] == kept[k];
        assert rest[m] == rows[m + 1];
      }
    }
  }

  lemma {:induction false} KeepRowsTwice(rows: seq<PatentRelation>, a: set<int>, b: set<int>)
    ensures KeepRows(KeepRows(rows, a), b) == KeepRows(rows, a + b)
  {
    if rows != [] {
      KeepRowsTwice(rows[1..], a, b);
      var head := if rows[0].id in a then [] else [rows[0]];
      KeepRowsAppend(head, KeepRows(rows[1..], a), b);
      if rows[0].id !in a {
        assert KeepRows(head, b) == if rows[0].id in b then [] else [rows[0]];
      }
    }
  }

  lemma {:induction false} KeepRowsAppend(x: seq<PatentRelation>, y: seq<PatentRelation>, drop: set<int>)
    ensures KeepRows(x + y, drop) == KeepRows(x, drop) + KeepRows(y, drop)
  {
    if x != [] {
      KeepRowsAppend(x[1..], y, drop);
      assert (x + y)[1..] == x[1..] + y;
    } else {
      assert x + y == y;
    }
  }

  lemma {:induction false} KeepRowsNone(rows: seq<PatentRelation>)
    ensures KeepRows(rows, {}) == rows
  {
    if rows != [] {
      KeepRowsNone(rows[1..]);
      assert rows == [rows[0]] + rows[1..];
    }
  }

  /** The whole of `_process_patent_relations` for one block: the new table, the next key and
      whether it raised. */
  function ProcessedRelations(rows: seq<PatentRelation>, nextId: int, modelId: int, g: FormGroup): (seq<PatentRelation>, int, Outcome)
  {
    var (t, ok) := RunEntries(RelState(rows, nextId, []), modelId, g.patentId, Classified(Zip(g.printerRelations, g.relationTypes)));
    if ok then (KeepRows(t.rows, Obsolete(RelationIds(rows, g.patentId), t.finalIds)), t.nextId, Pass)
    else (t.rows, t.nextId, Fail(ValueError))
  }

  /** The (printer, type) pair of a relation row. */
  function RelKey(row: PatentRelation): (int, string)
  {
    (row.personRelatedId, row.relType)
  }

  /** The row at `k` is the first row of the patent owned by the printer with its own
      (printer, type) pair. */
  predicate FirstOfKey(rows: seq<PatentRelation>, k: int, patentId: int, modelId: int)
  {
    && 0 <= k < |rows|
    && rows[k].patentId == patentId && rows[k].personId == modelId
    && forall j :: 0 <= j < k ==> !Matches(rows[j], patentId, modelId, rows[k].personRelatedId, rows[k].relType)
  }

  /** What holds while the entries are handled, `done` being the pairs handled so far: the
      former rows are still there and keys stay valid; every inserted row and every row whose
      key is recorded is the first row of a handled pair; every handled pair has a recorded
      row. */
  ghost predicate RunInv(s: RelState, rows0: seq<PatentRelation>, patentId: int, modelId: int, done: set<(int, string)>)
  {
    && rows0 <= s.rows
    && RelationsValid(s.rows, s.nextId)
    && AddedRowsFirst(s, rows0, patentId, modelId, done)
    && RecordedRowsFirst(s, patentId, modelId, done)
    && HandledPairsRecorded(s, patentId, modelId, done)
  }

  ghost predicate AddedRowsFirst(s: RelState, rows0: seq<PatentRelation>, patentId: int, modelId: int, done: set<(int, string)>)
  {
    forall k :: |rows0| <= k < |s.rows| ==> FirstOfKey(s.rows, k, patentId, modelId) && RelKey(s.rows[k]) in done
  }

  ghost predicate RecordedRowsFirst(s: RelState, patentId: int, modelId: int, done: set<(int, string)>)
  {
    forall k :: 0 <= k < |s.rows| && s.rows[k].id in s.finalIds ==>
      FirstOfKey(s.rows, k, patentId, modelId) && RelKey(s.rows[k]) in done
  }

  ghost predicate HandledPairsRecorded(s: RelState, patentId: int, modelId: int, done: set<(int, string)>)
  {
    forall printerId, relType :: (printerId, relType) in done ==>
      exists k :: 0 <= k < |s.rows| && Matches(s.rows[k], patentId, modelId, printerId, relType) && s.rows[k].id in s.finalIds
  }

  lemma AddOrUpdateKeepsInv(s: RelState, rows0: seq<PatentRelation>, patentId: int, modelId: int,
                            done: set<(int, string)>, printerId: int, relType: string)
    requires RunInv(s, rows0, patentId, modelId, done)
    ensures RunInv(AddOrUpdate(s, modelId, patentId, printerId, relType), rows0, patentId, modelId, done + {(printerId, relType)})
  {
    var k := FirstRelationIndex(s.rows, patentId, modelId, printerId, relType);
    if k >= 0 {
      ReuseKeepsInv(s, rows0, patentId, modelId, done, printerId, relType, k);
    } else {
      InsertKeepsInv(s, rows0, patentId, modelId, done, printerId, relType);
    }
  }

  /** A matching row exists: only its key is recorded. */
  lemma ReuseKeepsInv(s: RelState, rows0: seq<PatentRelation>, patentId: int, modelId: int,
                      done: set<(int, string)>, printerId: int, relType: string, k: int)
    requires RunInv(s, rows0, patentId, modelId, done)
    requires k == FirstRelationIndex(s.rows, patentId, modelId, printerId, relType) && k >= 0
    ensures RunInv(AddOrUpdate(s, modelId, patentId, printerId, relType), rows0, patentId, modelId, done + {(printerId, relType)})
  {
    var t := AddOrUpdate(s, modelId, patentId, printerId, relType);
    assert t == s.(finalIds := s.finalIds + [s.rows[k].id]);
    var done' := done + {(printerId, relType)};
    forall m | 0 <= m < |t.rows| && t.rows[m].id in t.finalIds
      ensures FirstOfKey(t.rows, m, patentId, modelId) && RelKey(t.rows[m]) in done'
    {
      if t.rows[m].id !in s.finalIds {
        assert t.rows[m].id == s.rows[k].id;
        assert m == k;
      }
    }
    forall a, b | (a, b) in done'
      ensures exists m :: 0 <= m < |t.rows| && Matches(t.rows[m], patentId, modelId, a, b) && t.rows[m].id in t.finalIds
    {
      if (a, b) !in done {
        assert Matches(t.rows[k], patentId, modelId, a, b);
      } else {
        var m :| 0 <= m < |s.rows| && Matches(s.rows[m], patentId, modelId, a, b) && s.rows[m].id in s.finalIds;
        assert t.rows[m].id in t.finalIds;
      }
    }
  }

  /** No matching row: one is appended under the next key, and its key recorded. */
  lemma InsertKeepsInv(s: RelState, rows0: seq<PatentRelation>, patentId: int, modelId: int,
                       done: set<(int, string)>, printerId: int, relType: string)
    requires RunInv(s, rows0, patentId, modelId, done)
    requires FirstRelationIndex(s.rows, patentId, modelId, printerId, relType) < 0
    ensures RunInv(AddOrUpdate(s, modelId, patentId, printerId, relType), rows0, patentId, modelId, done + {(printerId, relType)})
  {
    AppendKeepsInv(s, AddOrUpdate(s, modelId, patentId, printerId, relType), rows0, patentId, modelId, done, printerId, relType);
  }

  lemma AppendKeepsInv(s: RelState, t: RelState, rows0: seq<PatentRelation>, patentId: int, modelId: int,
                       done: set<(int, string)>, printerId: int, relType: string)
    requires RunInv(s, rows0, patentId, modelId, done)
    requires forall j :: 0 <= j < |s.rows| ==> !Matches(s.rows[j], patentId, modelId, printerId, relType)
    requires t == RelState(s.rows + [PatentRelation(s.nextId, patentId, modelId, printerId, relType)], s.nextId + 1, s.finalIds + [s.nextId])
    ensures RunInv(t, rows0, patentId, modelId, done + {(printerId, relType)})
  {
    var row := PatentRelation(s.nextId, patentId, modelId, printerId, relType);
    AppendRowsValid(s.rows, s.nextId, row);
    assert rows0 <= t.rows by {
      assert t.rows[..|rows0|] == s.rows[..|rows0|];
    }
    AppendFirsts(s, t, rows0, patentId, modelId, done, row);
    AppendHandled(s, t, patentId, modelId, done, row);
  }

  /** The appended row and every earlier row in the invariant stay the first of their key. */
  lemma AppendFirsts(s: RelState, t: RelState, rows0: seq<PatentRelation>, patentId: int, modelId: int,
                     done: set<(int, string)>, row: PatentRelation)
    requires AddedRowsFirst(s, rows0, patentId, modelId, done) && RecordedRowsFirst(s, patentId, modelId, done)
    requires RelationsValid(s.rows, s.nextId) && |rows0| <= |s.rows|
    requires row.id == s.nextId && row.patentId == patentId && row.personId == modelId
    requires forall j :: 0 <= j < |s.rows| ==> !Matches(s.rows[j], patentId, modelId, row.personRelatedId, row.relType)
    requires t.rows == s.rows + [row] && t.finalIds == s.finalIds + [s.nextId]
    ensures AddedRowsFirst(t, rows0, patentId, modelId, done + {RelKey(row)})
    ensures RecordedRowsFirst(t, patentId, modelId, done + {RelKey(row)})
  {
    var n := |s.rows|;
    forall k | 0 <= k < |t.rows| && (k >= |rows0| || t.rows[k].id in t.finalIds)
      ensures FirstOfKey(t.rows, k, patentId, modelId) && RelKey(t.rows[k]) in done + {RelKey(row)}
    {
      if k < n {
        assert t.rows[k] == s.rows[k];
        assert s.rows[k].id < s.nextId;
        assert t.rows[k].id in t.finalIds ==> s.rows[k].id in s.finalIds;
        AppendKeepsFirst(s.rows, row, k, patentId, modelId);
      } else {
        AppendNewFirst(s.rows, row, patentId, modelId);
      }
    }
  }

  /** Every handled pair, the appended one included, still has a recorded row. */
  lemma AppendHandled(s: RelState, t: RelState, patentId: int, modelId: int, done: set<(int, string)>,
                      row: PatentRelation)
    requires HandledPairsRecorded(s, patentId, modelId, done)
    requires row.patentId == patentId && row.personId == modelId
    requires t.rows == s.rows + [row] && t.finalIds == s.finalIds + [row.id]
    ensures HandledPairsRecorded(t, patentId, modelId, done + {RelKey(row)})
  {
    var n := |s.rows|;
    forall a, b | (a, b) in done + {RelKey(row)}
      ensures exists m :: 0 <= m < |t.rows| && Matches(t.rows[m], patentId, modelId, a, b) && t.rows[m].id in t.finalIds
    {
      if (a, b) in done {
        var m :| 0 <= m < |s.rows| && Matches(s.rows[m], patentId, modelId, a, b) && s.rows[m].id in s.finalIds;
        assert t.rows[m] == s.rows[m];
      } else {
        assert Matches(t.rows[n], patentId, modelId, a, b);
      }
    }
  }

  /** A row with the next identifier keeps the identifiers distinct and below the next one. */
  lemma AppendRowsValid(rows: seq<PatentRelation>, nextId: int, row: PatentRelation)
    requires RelationsValid(rows, nextId) && row.id == nextId
    ensures RelationsValid(rows + [row], nextId + 1)
  {
    var r := rows + [row];
    forall i, j | 0 <= i < j < |r| ensures r[i].id != r[j].id {
      if j == |rows| {
        assert r[i] == rows[i];
      } else {
        assert r[i] == rows[i] && r[j] == rows[j];
      }
    }
  }

  /** Appending a row keeps every earlier row the first of its key. */
  lemma AppendKeepsFirst(rows: seq<PatentRelation>, row: PatentRelation, k: int, patentId: int, modelId: int)
    requires FirstOfKey(rows, k, patentId, modelId)
    ensures FirstOfKey(rows + [row], k, patentId, modelId)
  {
    var r := rows + [row];
    assert r[k] == rows[k];
    forall j | 0 <= j < k ensures r[j] == rows[j] {}
  }

  /** A row appended when no earlier row has its key is the first of its key. */
  lemma AppendNewFirst(rows: seq<PatentRelation>, row: PatentRelation, patentId: int, modelId: int)
    requires row.patentId == patentId && row.personId == modelId
    requires forall j :: 0 <= j < |rows| ==> !Matches(rows[j], patentId, modelId, row.personRelatedId, row.relType)
    ensures FirstOfKey(rows + [row], |rows|, patentId, modelId)
  {
    var r := rows + [row];
    assert r[|rows|] == row;
    forall j | 0 <= j < |rows| ensures r[j] == rows[j] {}
  }

  /** The loop keeps the invariant; when it completes, the handled pairs are the entries'
      pairs, and when it raises the table still holds every former row. */
  lemma RunEntriesKeepsInv(s: RelState, rows0: seq<PatentRelation>, patentId: int, modelId: int,
                           done: set<(int, string)>, items: seq<Item>)
    requires RunInv(s, rows0, patentId, modelId, done)
    ensures var (t, ok) := RunEntries(s, modelId, patentId, items);
      && (ok ==> RunInv(t, rows0, patentId, modelId, done + Pairs(items)))
      && rows0 <= t.rows && RelationsValid(t.rows, t.nextId)
  {
    RunEntriesKeepsInvAt(s, rows0, patentId, modelId, done, items, RunEntries(s, modelId, patentId, items), done + Pairs(items));
  }

  /** The induction behind it, over the loop's result `res` and the pairs `final` it ends
      with. */
  lemma {:induction false} RunEntriesKeepsInvAt(s: RelState, rows0: seq<PatentRelation>, patentId: int, modelId: int,
                                              done: set<(int, string)>, items: seq<Item>,
                                              res: (RelState, bool), final: set<(int, string)>)
    requires RunInv(s, rows0, patentId, modelId, done)
    requires res == RunEntries(s, modelId, patentId, items) && final == done + Pairs(items)
    ensures res.1 ==> RunInv(res.0, rows0, patentId, modelId, final)
    ensures rows0 <= res.0.rows && RelationsValid(res.0.rows, res.0.nextId)
    decreases |items|
  {
    if items == [] {
      assert final == done;
    } else {
      var rest := items[1..];
      match items[0].0
      case Blank =>
        assert Pairs(items) == Pairs(rest);
        RunEntriesKeepsInvAt(s, rows0, patentId, modelId, done, rest, res, final);
      case NotAnInteger =>
        assert res == (s, false);
      case PrinterEntry(printerId) =>
        var q := (printerId, items[0].1);
        var s' := AddOrUpdate(s, modelId, patentId, q.0, q.1);
        assert res == RunEntries(s', modelId, patentId, rest);
        assert final == done + {q} + Pairs(rest);
        AddOrUpdateKeepsInv(s, rows0, patentId, modelId, done, q.0, q.1);
        RunEntriesKeepsInvAt(s', rows0, patentId, modelId, done + {q}, rest, res, final);
    }
  }

  /** A row of the patent that survives the deletions is the first row of its own pair and
      that pair was handled. */
  lemma SurvivorIsFirst(t: RelState, rows0: seq<PatentRelation>, patentId: int, modelId: int,
                        done: set<(int, string)>, row: PatentRelation)
    requires RunInv(t, rows0, patentId, modelId, done)
    requires row in KeepRows(t.rows, Obsolete(RelationIds(rows0, patentId), t.finalIds)) && row.patentId == patentId
    ensures exists k :: FirstOfKey(t.rows, k, patentId, modelId) && t.rows[k] == row
    ensures RelKey(row) in done
  {
    KeepRowsMember(t.rows, Obsolete(RelationIds(rows0, patentId), t.finalIds), row);
    var k :| 0 <= k < |t.rows| && t.rows[k] == row;
    if k < |rows0| {
      assert rows0[k] == row;
      assert row.id in RelationIds(rows0, patentId);
      assert row.id in t.finalIds;
    }
  }

  /** Two surviving rows of the patent with the same pair are the same row: each is the
      first row of that pair. */
  lemma SurvivorsDistinctKeys(t: RelState, rows0: seq<PatentRelation>, patentId: int, modelId: int,
                              done: set<(int, string)>, r1: PatentRelation, r2: PatentRelation)
    requires RunInv(t, rows0, patentId, modelId, done)
    requires var final := KeepRows(t.rows, Obsolete(RelationIds(rows0, patentId), t.finalIds));
      r1 in final && r2 in final && r1.patentId == patentId && r2.patentId == patentId
    requires RelKey(r1) == RelKey(r2)
    ensures r1 == r2
  {
    SurvivorIsFirst(t, rows0, patentId, modelId, done, r1);
    SurvivorIsFirst(t, rows0, patentId, modelId, done, r2);
    var k1 :| FirstOfKey(t.rows, k1, patentId, modelId) && t.rows[k1] == r1;
    var k2 :| FirstOfKey(t.rows, k2, patentId, modelId) && t.rows[k2] == r2;
    assert k1 < k2 ==> Matches(t.rows[k1], patentId, modelId, t.rows[k2].personRelatedId, t.rows[k2].relType);
    assert k2 < k1 ==> Matches(t.rows[k2], patentId, modelId, t.rows[k1].personRelatedId, t.rows[k1].relType);
    assert k1 == k2;
  }

  /** The table the deletions leave. */
  function FinalRows(t: RelState, rows0: seq<PatentRelation>, patentId: int): seq<PatentRelation>
  {
    KeepRows(t.rows, Obsolete(RelationIds(rows0, patentId), t.finalIds))
  }

  /** Every surviving row of the patent belongs to the printer and carries a handled pair. */
  lemma FinalRowsOwned(t: RelState, rows0: seq<PatentRelation>, patentId: int, modelId: int, done: set<(int, string)>)
    requires RunInv(t, rows0, patentId, modelId, done)
    ensures forall row :: row in FinalRows(t, rows0, patentId) && row.patentId == patentId ==>
      row.personId == modelId && RelKey(row) in done
  {
    forall row | row in FinalRows(t, rows0, patentId) && row.patentId == patentId
      ensures row.personId == modelId && RelKey(row) in done
    {
      SurvivorIsFirst(t, rows0, patentId, modelId, done, row);
    }
  }

  /** Every handled pair keeps a row. */
  lemma FinalRowsCover(t: RelState, rows0: seq<PatentRelation>, patentId: int, modelId: int, done: set<(int, string)>)
    requires RunInv(t, rows0, patentId, modelId, done)
    ensures forall a, b :: (a, b) in done ==>
      exists row :: row in FinalRows(t, rows0, patentId) && Matches(row, patentId, modelId, a, b)
  {
    forall a, b | (a, b) in done
      ensures exists row :: row in FinalRows(t, rows0, patentId) && Matches(row, patentId, modelId, a, b)
    {
      var k :| 0 <= k < |t.rows| && Matches(t.rows[k], patentId, modelId, a, b) && t.rows[k].id in t.finalIds;
      KeepRowsMember(t.rows, Obsolete(RelationIds(rows0, patentId), t.finalIds), t.rows[k]);
    }
  }

  /** No pair has two surviving rows on the patent. */
  lemma FinalRowsUnique(t: RelState, rows0: seq<PatentRelation>, patentId: int, modelId: int, done: set<(int, string)>)
    requires RunInv(t, rows0, patentId, modelId, done)
    ensures var final := FinalRows(t, rows0, patentId);
      forall r1, r2 ::
        (r1 in final && r2 in final && r1.patentId == patentId && r2.patentId == patentId
         && RelKey(r1) == RelKey(r2)) ==> r1 == r2
  {
    var final := FinalRows(t, rows0, patentId);
    forall r1, r2 | r1 in final && r2 in final && r1.patentId == patentId && r2.patentId == patentId
                    && RelKey(r1) == RelKey(r2)
      ensures r1 == r2
    {
      SurvivorsDistinctKeys(t, rows0, patentId, modelId, done, r1, r2);
    }
  }

  /** Rows of other patents are untouched. */
  lemma FinalRowsOthers(t: RelState, rows0: seq<PatentRelation>, patentId: int, modelId: int, done: set<(int, string)>)
    requires RunInv(t, rows0, patentId, modelId, done)
    ensures forall row: PatentRelation :: row.patentId != patentId ==> (row in FinalRows(t, rows0, patentId) <==> row in rows0)
  {
    var drop := Obsolete(RelationIds(rows0, patentId), t.finalIds);
    forall row: PatentRelation | row.patentId != patentId ensures row in FinalRows(t, rows0, patentId) <==> row in rows0 {
      KeepRowsMember(t.rows, drop, row);
      if row in t.rows {
        var k :| 0 <= k < |t.rows| && t.rows[k] == row;
        assert forall j :: |rows0| <= j < |t.rows| ==> t.rows[j].patentId == patentId;
        assert k < |rows0|;
        assert rows0[k] == row;
        forall m | 0 <= m < |rows0| && rows0[m].patentId == patentId ensures rows0[m].id != row.id {
          assert t.rows[m] == rows0[m];
          assert m != k;
        }
      }
      if row in rows0 {
        var k :| 0 <= k < |rows0| && rows0[k] == row;
        assert t.rows[k] == row;
      }
    }
  }

  /** `_process_patent_relations`: when every non-blank printer entry is an integer, the
      patent's rows afterwards are exactly one row of this printer per distinct (printer,
      type) pair of the zipped entries, whatever rows other persons had on the patent, and
      other patents' rows are untouched. When an entry is not an integer it raises
      ValueError before deleting anything. Keys stay valid either way. */
  lemma ProcessedRelationsSpec(rows: seq<PatentRelation>, nextId: int, modelId: int, g: FormGroup)
    requires RelationsValid(rows, nextId)
    ensures var (final, next, r) := ProcessedRelations(rows, nextId, modelId, g);
      var items := Classified(Zip(g.printerRelations, g.relationTypes));
      var pairs := Pairs(items);
      && RelationsValid(final, next)
      && (r.Fail? <==> SomeEntryInvalid(items))
      && (r.Fail? ==> r.error == ValueError && rows <= final)
      && (r.Pass? ==>
            && (forall row :: row in final && row.patentId == g.patentId ==>
                  row.personId == modelId && RelKey(row) in pairs)
            && (forall a, b :: (a, b) in pairs ==>
                  exists row :: row in final && Matches(row, g.patentId, modelId, a, b))
            && (forall r1, r2 ::
                  (r1 in final && r2 in final && r1.patentId == g.patentId && r2.patentId == g.patentId
                   && RelKey(r1) == RelKey(r2)) ==> r1 == r2)
            && (forall row: PatentRelation :: row.patentId != g.patentId ==> (row in final <==> row in rows)))
  {
    var items := Classified(Zip(g.printerRelations, g.relationTypes));
    var s := RelState(rows, nextId, []);
    assert RunInv(s, rows, g.patentId, modelId, {});
    var run := RunEntries(s, modelId, g.patentId, items);
    assert {} + Pairs(items) == Pairs(items);
    RunEntriesKeepsInvAt(s, rows, g.patentId, modelId, {}, items, run, Pairs(items));
    RunEntriesFails(s, modelId, g.patentId, items);
    var (t, ok) := run;
    var res := ProcessedRelations(rows, nextId, modelId, g);
    if ok {
      assert res == (FinalRows(t, rows, g.patentId), t.nextId, Pass);
      KeepRowsValid(t.rows, Obsolete(RelationIds(rows, g.patentId), t.finalIds), t.nextId);
      FinalRowsOwned(t, rows, g.patentId, modelId, Pairs(items));
      FinalRowsCover(t, rows, g.patentId, modelId, Pairs(items));
      FinalRowsUnique(t, rows, g.patentId, modelId, Pairs(items));
      FinalRowsOthers(t, rows, g.patentId, modelId, Pairs(items));
    } else {
      assert res == (t.rows, t.nextId, Fail(ValueError));
    }
  }

  /** One block per index below `n`, in index order, stopping at the first that raises. */
  function RelationGroups(rows: seq<PatentRelation>, nextId: int, modelId: int, groups: map<nat, FormGroup>, n: nat): (seq<PatentRelation>, int, Outcome)
  {
    if n == 0 then (rows, nextId, Pass)
    else
      var (before, next, r) := RelationGroups(rows, nextId, modelId, groups, n - 1);
      if r.Fail? || n - 1 !in groups then (before, next, r) else ProcessedRelations(before, next, modelId, groups[n - 1])
  }

  lemma {:induction false} RelationGroupsFailStays(rows: seq<PatentRelation>, nextId: int, modelId: int,
                                                 groups: map<nat, FormGroup>, i: nat, n: nat)
    requires i <= n && RelationGroups(rows, nextId, modelId, groups, i).2.Fail?
    ensures RelationGroups(rows, nextId, modelId, groups, n) == RelationGroups(rows, nextId, modelId, groups, i)
    decreases n
  {
    if n > i {
      RelationGroupsFailStays(rows, nextId, modelId, groups, i, n - 1);
    }
  }

  /** The whole relation update keeps the keys distinct and below the next key. */
  lemma {:induction false} RelationGroupsValid(rows: seq<PatentRelation>, nextId: int, modelId: int,
                                              groups: map<nat, FormGroup>, n: nat)
    requires RelationsValid(rows, nextId)
    ensures var (final, next, _) := RelationGroups(rows, nextId, modelId, groups, n); RelationsValid(final, next)
    decreases n
  {
    if n > 0 {
      RelationGroupsValid(rows, nextId, modelId, groups, n - 1);
      var (before, next, r) := RelationGroups(rows, nextId, modelId, groups, n - 1);
      if !(r.Fail? || n - 1 !in groups) {
        ProcessedRelationsSpec(before, next, modelId, groups[n - 1]);
      }
    }
  }

  // ---------------------------------------------------------------- the session and the handler

  /** The ORM session: the tables the handler reads and writes, and the key the next
      `patent_has_relations` insert receives. */
  class AdminSession {
    var patents: seq<Patent>
    var imageRows: seq<PatentImage>
    var relationRows: seq<PatentRelation>
    var nextRelationId: int

    ghost predicate Valid()
      reads this`relationRows, this`nextRelationId
    {
      RelationsValid(relationRows, nextRelationId)
    }

    constructor (patents: seq<Patent>, imageRows: seq<PatentImage>, relationRows: seq<PatentRelation>, nextRelationId: int)
      requires RelationsValid(relationRows, nextRelationId)
      ensures Valid()
      ensures this.patents == patents && this.imageRows == imageRows
      ensures this.relationRows == relationRows && this.nextRelationId == nextRelationId
    {
      this.patents := patents;
      this.imageRows := imageRows;
      this.relationRows := relationRows;
      this.nextRelationId := nextRelationId;
    }
  }

  /** `PrinterModelChangeHandler`: `groupSlots` is `len(patents_id)` of the last grouping,
      the bound of the block indices. */
  class PrinterModelChangeHandler {
    const session: AdminSession
    const modelId: int
    const formData: FormData
    var groupedData: map<nat, FormGroup>
    var groupSlots: nat

    /** Every grouped block index is below the bound. */
    ghost predicate GroupsIndexed()
      reads this
    {
      forall i :: i in groupedData ==> i < groupSlots
    }

    constructor (session: AdminSession, modelId: int, formData: FormData)
      ensures this.session == session && this.modelId == modelId && this.formData == formData
      ensures groupedData == map[] && groupSlots == 0 && GroupsIndexed()
    {
      this.session := session;
      this.modelId := modelId;
      this.formData := formData;
      groupedData := map[];
      groupSlots := 0;
    }

    /** `prepare_grouped_data`: group the form over the printer's patents; an escaping
        IndexError leaves the grouped data as it was. */
    method PrepareGroupedData() returns (r: Outcome)
      modifies this
      ensures var ids := PatentIdsOf(session.patents, modelId);
        match GroupForm(formData, ids)
        case Success(m) => r == Pass && groupedData == m && groupSlots == |ids|
        case Failure(e) => r == Fail(e) && groupedData == old(groupedData) && groupSlots == old(groupSlots)
      ensures r.Pass? || old(GroupsIndexed()) ==> GroupsIndexed()
    {
      var patentsId := PatentIdsOf(session.patents, modelId);
      var grouped := GroupFormData(formData, patentsId);
      GroupFormSpec(formData, patentsId);
      if grouped.Failure? {
        return Fail(grouped.error);
      }
      groupedData := grouped.value;
      groupSlots := |patentsId|;
      r := Pass;
    }

    /** One block of `_update_pinned_images` with its selected image: the `.first()` query,
        then the loop that unpins every row of the patent and pins that one, or, with no row
        to pin, the loop that sets each flag from the image comparison. */
    method PinPatent(patentId: int, imageId: int)
      modifies session
      ensures session.imageRows == PinSelected(old(session.imageRows), patentId, imageId)
      ensures session.patents == old(session.patents) && session.relationRows == old(session.relationRows)
      ensures session.nextRelationId == old(session.nextRelationId)
      ensures old(session.Valid()) ==> session.Valid()
    {
      ghost var rows0 := session.imageRows;
      var first := FirstImageIndex(session.imageRows, patentId, imageId);
      var hasRelations := exists k :: 0 <= k < |session.imageRows| && session.imageRows[k].patentId == patentId;
      if !hasRelations {
        PinSelectedNoRelations(rows0, patentId, imageId);
        return;
      }
      if first >= 0 {
        for k := 0 to |session.imageRows|
          invariant |session.imageRows| == |rows0|
          invariant forall j :: 0 <= j < k ==>
            session.imageRows[j] == if rows0[j].patentId == patentId then rows0[j].(isPinned := false) else rows0[j]
          invariant forall j :: k <= j < |rows0| ==> session.imageRows[j] == rows0[j]
          invariant session.patents == old(session.patents) && session.relationRows == old(session.relationRows)
          invariant session.nextRelationId == old(session.nextRelationId)
        {
          if session.imageRows[k].patentId == patentId {
            session.imageRows := session.imageRows[k := session.imageRows[k].(isPinned := false)];
          }
        }
        session.imageRows := session.imageRows[first := session.imageRows[first].(isPinned := true)];
      } else {
        for k := 0 to |session.imageRows|
          invariant |session.imageRows| == |rows0|
          invariant forall j :: 0 <= j < k ==>
            session.imageRows[j] == if rows0[j].patentId == patentId then rows0[j].(isPinned := false) else rows0[j]
          invariant forall j :: k <= j < |rows0| ==> session.imageRows[j] == rows0[j]
          invariant session.patents == old(session.patents) && session.relationRows == old(session.relationRows)
          invariant session.nextRelationId == old(session.nextRelationId)
        {
          if session.imageRows[k].patentId == patentId {
            var pinned := session.imageRows[k].imageId == imageId;
            session.imageRows := session.imageRows[k := session.imageRows[k].(isPinned := pinned)];
          }
        }
      }
    }

    /** `_update_pinned_images`: every block in index order; an image selection `int`
        rejects raises ValueError, the blocks before it staying pinned. */
    method UpdatePinnedImages() returns (r: Outcome)
      requires GroupsIndexed()
      modifies session
      ensures (session.imageRows, r) == PinGroups(old(session.imageRows), groupedData, groupSlots)
      ensures session.patents == old(session.patents) && session.relationRows == old(session.relationRows)
      ensures session.nextRelationId == old(session.nextRelationId)
      ensures old(session.Valid()) ==> session.Valid()
    {
      ghost var rows0 := session.imageRows;
      for i := 0 to groupSlots
        invariant (session.imageRows, Pass) == PinGroups(rows0, groupedData, i)
        invariant session.patents == old(session.patents) && session.relationRows == old(session.relationRows)
        invariant session.nextRelationId == old(session.nextRelationId)
      {
        PinGroupsStep(rows0, groupedData, i, session.imageRows);
        if i in groupedData {
          var values := groupedData[i];
          if values.pinnedImage.Some? && values.pinnedImage.value != "" {
            var imageId := PyInt(values.pinnedImage.value);
            if imageId.None? {
              PinGroupsFailStays(rows0, groupedData, i + 1, groupSlots);
              return Fail(ValueError);
            }
            PinPatent(values.patentId, imageId.value);
          }
        }
      }
      r := Pass;
    }

    /** `_add_or_update_relation`; the returned list is `final_relations_id` after the append. */
    method AddOrUpdateRelation(printerId: int, relationType: string, patentId: int, finalIds: seq<int>) returns (ids: seq<int>)
      modifies session
      ensures var t := AddOrUpdate(RelState(old(session.relationRows), old(session.nextRelationId), finalIds),
                                   modelId, patentId, printerId, relationType);
        session.relationRows == t.rows && session.nextRelationId == t.nextId && ids == t.finalIds
      ensures session.patents == old(session.patents) && session.imageRows == old(session.imageRows)
      ensures old(session.Valid()) ==> session.Valid()
    {
      if session.Valid() {
        AddOrUpdateSpec(RelState(session.relationRows, session.nextRelationId, finalIds), modelId, patentId, printerId, relationType);
      }
      var k := FirstRelationIndex(session.relationRows, patentId, modelId, printerId, relationType);
      if k < 0 {
        var newRelation := PatentRelation(session.nextRelationId, patentId, modelId, printerId, relationType);
        session.relationRows := session.relationRows + [newRelation];
        session.nextRelationId := session.nextRelationId + 1;
        ids := finalIds + [newRelation.id];
      } else {
        ids := finalIds + [session.relationRows[k].id];
      }
    }

    /** The deletion loop: each former key no entry handled loses its row (keys are primary
        keys, so at most one row has it). */
    method DeleteObsoleteRelations(relationsId: seq<int>, finalIds: seq<int>)
      modifies session
      ensures session.relationRows == KeepRows(old(session.relationRows), Obsolete(relationsId, finalIds))
      ensures session.patents == old(session.patents) && session.imageRows == old(session.imageRows)
      ensures session.nextRelationId == old(session.nextRelationId)
      ensures old(session.Valid()) ==> session.Valid()
    {
      if session.Valid() {
        KeepRowsValid(session.relationRows, Obsolete(relationsId, finalIds), session.nextRelationId);
      }
      ghost var rows0 := session.relationRows;
      KeepRowsNone(rows0);
      assert Obsolete(relationsId[..0], finalIds) == {};
      for k := 0 to |relationsId|
        invariant session.relationRows == KeepRows(rows0, Obsolete(relationsId[..k], finalIds))
        invariant session.patents == old(session.patents) && session.imageRows == old(session.imageRows)
        invariant session.nextRelationId == old(session.nextRelationId)
      {
        var rid := relationsId[k];
        assert relationsId[..k + 1] == relationsId[..k] + [rid];
        if rid !in finalIds {
          KeepRowsTwice(rows0, Obsolete(relationsId[..k], finalIds), {rid});
          assert Obsolete(relationsId[..k + 1], finalIds) == Obsolete(relationsId[..k], finalIds) + {rid};
          session.relationRows := KeepRows(session.relationRows, {rid});
        } else {
          assert Obsolete(relationsId[..k + 1], finalIds) == Obsolete(relationsId[..k], finalIds);
        }
      }
      assert relationsId[..|relationsId|] == relationsId;
    }

    /** `_process_patent_relations` for one block. */
    method ProcessPatentRelations(data: FormGroup) returns (r: Outcome)
      modifies session
      ensures (session.relationRows, session.nextRelationId, r)
        == ProcessedRelations(old(session.relationRows), old(session.nextRelationId), modelId, data)
      ensures session.patents == old(session.patents) && session.imageRows == old(session.imageRows)
      ensures old(session.Valid()) ==> session.Valid()
    {
      if session.Valid() {
        ProcessedRelationsSpec(session.relationRows, session.nextRelationId, modelId, data);
      }
      var patentId := data.patentId;
      var relationsId := RelationIds(session.relationRows, patentId);
      var finalIds: seq<int> := [];
      var entries := Zip(data.printerRelations, data.relationTypes);
      ghost var items := Classified(entries);
      ghost var start := RelState(session.relationRows, session.nextRelationId, []);
      for k := 0 to |entries|
        invariant RunEntries(start, modelId, patentId, items)
          == RunEntries(RelState(session.relationRows, session.nextRelationId, finalIds), modelId, patentId, items[k..])
        invariant session.patents == old(session.patents) && session.imageRows == old(session.imageRows)
      {
        var (printerId, relationType) := entries[k];
        assert items[k..][1..] == items[k + 1..];
        assert items[k] == (Classify(printerId), relationType);
        if Strip(printerId) != [] {
          var v := PyInt(printerId);
          if v.None? {
            return Fail(ValueError);
          }
          finalIds := AddOrUpdateRelation(v.value, relationType, patentId, finalIds);
        }
      }
      assert items[|entries|..] == [];
      DeleteObsoleteRelations(relationsId, finalIds);
      r := Pass;
    }

    /** `_update_patent_relations`: every block in index order, stopping at the first that
        raises. */
    method UpdatePatentRelations() returns (r: Outcome)
      requires GroupsIndexed()
      modifies session
      ensures (session.relationRows, session.nextRelationId, r)
        == RelationGroups(old(session.relationRows), old(session.nextRelationId), modelId, groupedData, groupSlots)
      ensures session.patents == old(session.patents) && session.imageRows == old(session.imageRows)
      ensures old(session.Valid()) ==> session.Valid()
    {
      if session.Valid() {
        RelationGroupsValid(session.relationRows, session.nextRelationId, modelId, groupedData, groupSlots);
      }
      ghost var rows0 := session.relationRows;
      ghost var next0 := session.nextRelationId;
      for i := 0 to groupSlots
        invariant (session.relationRows, session.nextRelationId, Pass) == RelationGroups(rows0, next0, modelId, groupedData, i)
        invariant session.patents == old(session.patents) && session.imageRows == old(session.imageRows)
      {
        if i in groupedData {
          var outcome := ProcessPatentRelations(groupedData[i]);
          if outcome.Fail? {
            RelationGroupsFailStays(rows0, next0, modelId, groupedData, i + 1, groupSlots);
            return outcome;
          }
        }
      }
      r := Pass;
    }

    /** `after_model_change`: pins first, then relations; an exception in the first step
        skips the second. */
    method AfterModelChange(isCreated: bool) returns (r: Outcome)
      requires GroupsIndexed()
      modifies session
      ensures var (images, pinned) := PinGroups(old(session.imageRows), groupedData, groupSlots);
        && session.imageRows == images
        && (pinned.Fail? ==> r == pinned && session.relationRows == old(session.relationRows)
                             && session.nextRelationId == old(session.nextRelationId))
        && (pinned.Pass? ==>
              (session.relationRows, session.nextRelationId, r)
                == RelationGroups(old(session.relationRows), old(session.nextRelationId), modelId, groupedData, groupSlots))
      ensures old(session.Valid()) ==> session.Valid()
    {
      r := UpdatePinnedImages();
      if r.Fail? {
        return;
      }
      r := UpdatePatentRelations();
    }

    /** `on_model_change`: group the form, then run the circular-relation check, an opaque
        callable here, on every non-blank entry of every block; the first exception wins. */
    method OnModelChange(isCircular: (int, int, string, int) -> Outcome) returns (r: Outcome)
      modifies this
      ensures var ids := PatentIdsOf(session.patents, modelId);
        match GroupForm(formData, ids)
        case Failure(e) => r == Fail(e)
        case Success(m) => groupedData == m && groupSlots == |ids| && r == CheckGroups(m, |ids|, modelId, isCircular)
    {
      r := PrepareGroupedData();
      if r.Fail? {
        return;
      }
      var groups, n, person := groupedData, groupSlots, modelId;
      for i := 0 to n
        invariant groupedData == groups && groupSlots == n && modelId == person
        invariant CheckGroups(groups, n, person, isCircular) == CheckGroupsFrom(groups, i, n, person, isCircular)
      {
        if i in groups {
          var data := groups[i];
          var entries := Zip(data.printerRelations, data.relationTypes);
          var outcome := CheckEntries(entries, person, data.patentId, isCircular);
          if outcome.Fail? {
            assert CheckGroupsFrom(groups, i, n, person, isCircular) == outcome;
            return outcome;
          }
        }
      }
      r := Pass;
    }
  }

  /** The circular-relation checks of one block, first exception first. */
  function CheckEntriesSpec(items: seq<Item>, modelId: int, patentId: int,
                            isCircular: (int, int, string, int) -> Outcome): Outcome
    decreases |items|
  {
    if items == [] then Pass
    else
      match items[0].0
      case Blank => CheckEntriesSpec(items[1..], modelId, patentId, isCircular)
      case NotAnInteger => Fail(ValueError)
      case PrinterEntry(printerId) =>
        var c := isCircular(modelId, printerId, items[0].1, patentId);
        if c.Fail? then c else CheckEntriesSpec(items[1..], modelId, patentId, isCircular)
  }

  /** The inner loop of `on_model_change`. */
  method CheckEntries(entries: seq<(string, string)>, modelId: int, patentId: int,
                      isCircular: (int, int, string, int) -> Outcome) returns (r: Outcome)
    ensures r == CheckEntriesSpec(Classified(entries), modelId, patentId, isCircular)
  {
    ghost var items := Classified(entries);
    for k := 0 to |entries|
      invariant CheckEntriesSpec(items, modelId, patentId, isCircular)
        == CheckEntriesSpec(items[k..], modelId, patentId, isCircular)
    {
      var (printerId, relationType) := entries[k];
      assert items[k..][1..] == items[k + 1..];
      assert items[k] == (Classify(printerId), relationType);
      if Strip(printerId) != [] {
        var v := PyInt(printerId);
        if v.None? {
          return Fail(ValueError);
        }
        var c := isCircular(modelId, v.value, relationType, patentId);
        if c.Fail? {
          return c;
        }
      }
    }
    assert items[|entries|..] == [];
    r := Pass;
  }

  /** The checks of the blocks with index in `i .. n - 1`, first exception first. */
  function CheckGroupsFrom(groups: map<nat, FormGroup>, i: nat, n: nat, modelId: int,
                           isCircular: (int, int, string, int) -> Outcome): Outcome
    decreases n - i
  {
    if i >= n then Pass
    else
      var c := if i in groups
        then CheckEntriesSpec(Classified(Zip(groups[i].printerRelations, groups[i].relationTypes)), modelId, groups[i].patentId, isCircular)
        else Pass;
      if c.Fail? then c else CheckGroupsFrom(groups, i + 1, n, modelId, isCircular)
  }

  function CheckGroups(groups: map<nat, FormGroup>, n: nat, modelId: int,
                       isCircular: (int, int, string, int) -> Outcome): Outcome
  {
    CheckGroupsFrom(groups, 0, n, modelId, isCircular)
  }

  /** An entry passes when it is blank or an integer the circular-relation check accepts. */
  predicate ItemPasses(item: Item, modelId: int, patentId: int, isCircular: (int, int, string, int) -> Outcome)
  {
    match item.0
    case Blank => true
    case NotAnInteger => false
    case PrinterEntry(printerId) => isCircular(modelId, printerId, item.1, patentId).Pass?
  }

  /** The checks of a block pass exactly when every entry passes. */
  lemma {:induction false} CheckEntriesPass(items: seq<Item>, modelId: int, patentId: int,
                                          isCircular: (int, int, string, int) -> Outcome)
    ensures CheckEntriesSpec(items, modelId, patentId, isCircular).Pass? <==>
      forall k :: 0 <= k < |items| ==> ItemPasses(items[k], modelId, patentId, isCircular)
    decreases |items|
  {
    if items != [] {
      var rest := items[1..];
      assert forall k :: 1 <= k < |items| ==> items[k] == rest[k - 1];
      CheckEntriesPass(rest, modelId, patentId, isCircular);
    }
  }
}
