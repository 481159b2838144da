/**
  * The single-pinned-image rule of api/models/models.py: before a `patent_has_images` row is
  * inserted or updated with `is_pinned` set, every other row of the same patent is unpinned.
  */
module PinRepair {
  import opened Wrappers
  import opened Records

  /** Stored rows carry distinct identifiers. */
  predicate RowsValid(rows: seq<PatentImage>)
  {
    && (forall i :: 0 <= i < |rows| ==> rows[i].id.Some?)
    && (forall i, j :: 0 <= i < j < |rows| ==> rows[i].id != rows[j].id)
  }

  /** No two pinned rows share a patent. */
  predicate AtMostOnePinned(rows: seq<PatentImage>)
  {
    forall i, j ::
      (0 <= i < |rows| && 0 <= j < |rows| && rows[i].isPinned && rows[j].isPinned
       && rows[i].patentId == rows[j].patentId) ==> i == j
  }

  /** Some stored row has this identifier. */
  predicate Persisted(rows: seq<PatentImage>, id: Option<int>)
  {
    exists i :: 0 <= i < |rows| && rows[i].id == id
  }

  /** The bulk `UPDATE ... SET is_pinned = false WHERE patent_id = :p AND id != :id`. The
      ORM writes `id != None` as `id IS NOT NULL`, so for a row not yet inserted every row
      of the patent is unpinned. */
  function UnpinOthers(rows: seq<PatentImage>, target: PatentImage): seq<PatentImage>
  {
    seq(|rows|, i requires 0 <= i < |rows| =>
      if rows[i].patentId == target.patentId && rows[i].id.Some? && rows[i].id != target.id
      then rows[i].(isPinned := false) else rows[i])
  }

  /** `check_img_patent_relations_pinned`: only a pinned relation triggers the update. */
  function CheckImgPatentRelationsPinned(rows: seq<PatentImage>, target: Entity): seq<PatentImage>
  {
    if target.PatentImageEntity? && target.relation.isPinned then UnpinOthers(rows, target.relation) else rows
  }

  /** The row the ORM then writes: an insert takes the next identifier, an update replaces
      the stored row with the same identifier. */
  function WriteRow(rows: seq<PatentImage>, target: PatentImage, nextId: int): seq<PatentImage>
  {
    if target.id.None? then rows + [target.(id := Some(nextId))]
    else seq(|rows|, i requires 0 <= i < |rows| => if rows[i].id == target.id then target else rows[i])
  }

  /** The identifier the written row ends up with. */
  function SavedId(target: PatentImage, nextId: int): Option<int>
  {
    if target.id.None? then Some(nextId) else target.id
  }

  /** Saving a relation: the hook, then the write. */
  function SaveRows(rows: seq<PatentImage>, target: PatentImage, nextId: int): seq<PatentImage>
  {
    WriteRow(CheckImgPatentRelationsPinned(rows, PatentImageEntity(target)), target, nextId)
  }

  /** The saved row is in the table with its new identifier, every other row keeps its
      identifier, patent and image, and the identifiers stay distinct. */
  lemma SaveRowsShape(rows: seq<PatentImage>, target: PatentImage, nextId: int)
    requires RowsValid(rows)
    requires target.id.None? ==> !Persisted(rows, Some(nextId))
    requires target.id.Some? ==> Persisted(rows, target.id)
    ensures var r := SaveRows(rows, target, nextId);
      && RowsValid(r)
      && |r| == (if target.id.None? then |rows| + 1 else |rows|)
      && Persisted(r, SavedId(target, nextId))
      && (forall i :: 0 <= i < |r| && r[i].id == SavedId(target, nextId) ==> r[i] == target.(id := SavedId(target, nextId)))
      && (forall i :: 0 <= i < |rows| && rows[i].id != SavedId(target, nextId) ==>
            r[i].id == rows[i].id && r[i].patentId == rows[i].patentId && r[i].imageId == rows[i].imageId)
  {
    var u := CheckImgPatentRelationsPinned(rows, PatentImageEntity(target));
    assert |u| == |rows| && forall i :: 0 <= i < |u| ==> u[i].id == rows[i].id;
    var r := SaveRows(rows, target, nextId);
    if target.id.None? {
      assert r[|rows|].id == Some(nextId);
    } else {
      var k :| 0 <= k < |rows| && rows[k].id == target.id;
      assert r[k] == target;
    }
  }

  /** Saving a pinned relation leaves it the only pinned row of its patent, whatever state the
      table was in. */
  lemma PinnedSaveIsOnlyPinned(rows: seq<PatentImage>, target: PatentImage, nextId: int)
    requires RowsValid(rows)
    requires target.id.None? ==> !Persisted(rows, Some(nextId))
    requires target.id.Some? ==> Persisted(rows, target.id)
    requires target.isPinned
    ensures var r := SaveRows(rows, target, nextId);
      forall i :: 0 <= i < |r| && r[i].patentId == target.patentId ==>
        (r[i].isPinned <==> r[i].id == SavedId(target, nextId))
  {
    SaveRowsShape(rows, target, nextId);
  }

  /** Saving an unpinned relation writes it and touches no other row. */
  lemma UnpinnedSaveOnlyWrites(rows: seq<PatentImage>, target: PatentImage, nextId: int)
    requires !target.isPinned
    ensures SaveRows(rows, target, nextId) == WriteRow(rows, target, nextId)
  {
  }

  /** The rows of other patents are never touched by saving, except the saved row itself. */
  lemma SaveLeavesOtherPatents(rows: seq<PatentImage>, target: PatentImage, nextId: int)
    ensures var r := SaveRows(rows, target, nextId);
      forall i :: 0 <= i < |rows| && rows[i].patentId != target.patentId && rows[i].id != target.id ==>
        r[i] == rows[i]
  {
  }

  /** Saving keeps at most one pinned image per patent. */
  lemma SaveKeepsAtMostOnePinned(rows: seq<PatentImage>, target: PatentImage, nextId: int)
    requires RowsValid(rows) && AtMostOnePinned(rows)
    requires target.id.None? ==> !Persisted(rows, Some(nextId))
    requires target.id.Some? ==> Persisted(rows, target.id)
    ensures AtMostOnePinned(SaveRows(rows, target, nextId))
  {
    var r := SaveRows(rows, target, nextId);
    SaveRowsShape(rows, target, nextId);
    var s := SavedId(target, nextId);
    forall i, j | 0 <= i < |r| && 0 <= j < |r| && r[i].isPinned && r[j].isPinned && r[i].patentId == r[j].patentId
      ensures i == j
    {
      if target.isPinned && r[i].patentId == target.patentId {
        PinnedSaveIsOnlyPinned(rows, target, nextId);
      } else if r[i].id == s || r[j].id == s {
      } else {
        assert rows[i].isPinned && rows[j].isPinned;
      }
    }
  }

  /**
    * The `patent_has_images` table as the ORM session sees it: its rows and the identifier
    * the next insert receives.
    */
  class PatentImageTable {
    var rows: seq<PatentImage>
    var nextId: int

    ghost predicate Valid()
      reads this
    {
      RowsValid(rows) && forall i :: 0 <= i < |rows| ==> rows[i].id.value < nextId
    }

    constructor ()
      ensures Valid() && rows == [] && nextId == 1
    {
      rows := [];
      nextId := 1;
    }

    /** Insert (identifier `None`) or update a relation, running the pin rule first. */
    method Save(target: PatentImage) returns (saved: PatentImage)
      requires Valid()
      requires target.id.Some? ==> Persisted(rows, target.id)
      modifies this
      ensures Valid()
      ensures rows == SaveRows(old(rows), target, old(nextId))
      ensures saved == target.(id := SavedId(target, old(nextId)))
      ensures nextId == if target.id.None? then old(nextId) + 1 else old(nextId)
      ensures saved.isPinned ==> forall i :: 0 <= i < |rows| && rows[i].patentId == saved.patentId ==>
        (rows[i].isPinned <==> rows[i].id == saved.id)
    {
      assert target.id.None? ==> !Persisted(rows, Some(nextId));
      SaveRowsShape(rows, target, nextId);
      if target.isPinned {
        PinnedSaveIsOnlyPinned(rows, target, nextId);
      }
      rows := CheckImgPatentRelationsPinned(rows, PatentImageEntity(target));
      if target.id.None? {
        saved := target.(id := Some(nextId));
        rows := rows + [saved];
        nextId := nextId + 1;
      } else {
        saved := target;
        rows := WriteRow(rows, target, nextId);
      }
    }
  }

  /** Three images on one patent: pinning the second and then the third leaves only the third
      pinned. */
  lemma PinTwiceExample()
    ensures var t1 := SaveRows([], PatentImage(None, 1, 1, false), 1);
            var t2 := SaveRows(t1, PatentImage(None, 1, 2, true), 2);
            SaveRows(t2, PatentImage(None, 1, 3, true), 3)
              == [PatentImage(Some(1), 1, 1, false), PatentImage(Some(2), 1, 2, false), PatentImage(Some(3), 1, 3, true)]
  {
    var t1 := SaveRows([], PatentImage(None, 1, 1, false), 1);
    assert t1 == [PatentImage(Some(1), 1, 1, false)];
    var t2 := SaveRows(t1, PatentImage(None, 1, 2, true), 2);
    assert t2 == [PatentImage(Some(1), 1, 1, false), PatentImage(Some(2), 1, 2, true)];
  }
}
