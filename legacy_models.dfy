/**
  * The consistency hooks of the earlier model layer, api/models_old.py, which the current
  * models replaced: identifier generation on insert only when none is supplied, markup
  * clean-up for persons only (through `str()`, so a missing text becomes "None"), the
  * existing-person check for patents, the image file name and a single-pinned-image rule
  * that REJECTS a second pinned image instead of unpinning the others.
  *
  * The randomness is a sequence of `Draw`s and the MIME tables are a `MimeTypes`
  * parameter, as in the current model.
  */
module LegacyModels {
  import opened Wrappers
  import opened Text
  import opened Records
  import opened Identifiers
  import opened Markup
  import opened Consistency
  import opened PinRepair

  // ---------------------------------------------------------------- _id_dil

  /** The rows whose `_id_dil` column this model carries. */
  predicate CarriesId(e: Entity)
  {
    e.PersonEntity? || e.PatentEntity? || e.ImageEntity?
  }

  function IdDil(e: Entity): Option<string>
    requires CarriesId(e)
  {
    match e
    case PersonEntity(p) => p.idDil
    case PatentEntity(pt) => pt.idDil
    case ImageEntity(im) => im.idDil
  }

  function WithIdDil(e: Entity, id: string): (r: Entity)
    requires CarriesId(e)
    ensures CarriesId(r) && IdDil(r) == Some(id)
  {
    match e
    case PersonEntity(p) => PersonEntity(p.(idDil := Some(id)))
    case PatentEntity(pt) => PatentEntity(pt.(idDil := Some(id)))
    case ImageEntity(im) => ImageEntity(im.(idDil := Some(id)))
  }

  /** The class's `__prefix__`. */
  function ClassPrefix(e: Entity): string
    requires CarriesId(e)
  {
    match e
    case PersonEntity(_) => "person"
    case PatentEntity(_) => "patent"
    case ImageEntity(_) => "img"
  }

  /** `not target._id_dil`: `None` and the empty string are both missing. */
  predicate IdMissing(id: Option<string>)
  {
    id.None? || id.value == ""
  }

  /** The shape of a generated identifier: the class prefix, "_dil_", eight letters or digits. */
  predicate IsDilIdentifier(id: string, prefix: string)
  {
    |id| == |prefix| + 13 && id[..|prefix| + 5] == prefix + "_dil_" && AllAlnum(id[|prefix| + 5..])
  }

  /** `before_insert_create_id_ref`: a row without an identifier gets the first candidate
      no row of its table carries; a supplied identifier is kept. */
  function CreateIdRef(e: Entity, taken: set<string>, draws: seq<Draw>): (r: Result<Entity>)
    ensures r.Failure? ==> r.error == DrawsExhausted
  {
    if !CarriesId(e) || !IdMissing(IdDil(e)) then Success(e)
    else
      match FirstUnused(DilCandidate(ClassPrefix(e)), taken, draws)
      case None => Failure(DrawsExhausted)
      case Some(id) => Success(WithIdDil(e, id))
  }

  /** A supplied identifier is kept and nothing changes; a missing one is replaced by a
      fresh identifier of the class's shape and nothing else changes; the hook fails only
      when every drawn candidate is taken. */
  lemma CreateIdRefSpec(e: Entity, taken: set<string>, draws: seq<Draw>)
    ensures var r := CreateIdRef(e, taken, draws);
      && (!CarriesId(e) || !IdMissing(IdDil(e)) ==> r == Success(e))
      && (CarriesId(e) && IdMissing(IdDil(e)) ==>
            && (r.Failure? <==> forall k :: 0 <= k < |draws| ==> GenerateRandomUuid(ClassPrefix(e), "dil", draws[k]) in taken)
            && (r.Success? ==>
                  && CarriesId(r.value)
                  && IdDil(r.value).Some?
                  && IdDil(r.value).value !in taken
                  && IsDilIdentifier(IdDil(r.value).value, ClassPrefix(e))
                  && r.value == WithIdDil(e, IdDil(r.value).value)))
  {
    if CarriesId(e) && IdMissing(IdDil(e)) {
      var prefix := ClassPrefix(e);
      var gen := DilCandidate(prefix);
      FirstUnusedIsFree(gen, taken, draws);
      var found := FirstUnused(gen, taken, draws);
      assert forall k :: 0 <= k < |draws| ==> gen(draws[k]) == GenerateRandomUuid(prefix, "dil", draws[k]);
      if found.Some? {
        var k :| 0 <= k < |draws| && found.value == gen(draws[k]);
        DilCandidateShape(prefix, draws[k]);
      }
    }
  }

  /** A candidate for a class is of the class's identifier shape. */
  lemma DilCandidateShape(prefix: string, d: Draw)
    ensures IsDilIdentifier(GenerateRandomUuid(prefix, "dil", d), prefix)
  {
    GenerateRandomUuidShape(prefix, "dil", d);
    RandomSuffixShape(d);
    assert prefix + "_" + "dil" + "_" == prefix + "_dil_";
  }

  /** `generate_unique_id` called from the insert hook: the while loop over the draws. */
  method BeforeInsertCreateIdRef(e: Entity, taken: set<string>, draws: seq<Draw>) returns (r: Result<Entity>)
    ensures r == CreateIdRef(e, taken, draws)
  {
    if !CarriesId(e) || !IdMissing(IdDil(e)) {
      return Success(e);
    }
    var id, attempts := GenerateUniqueId(DilCandidate(ClassPrefix(e)), taken, draws);
    if id.None? {
      return Failure(DrawsExhausted);
    }
    r := Success(WithIdDil(e, id.value));
  }

  // ---------------------------------------------------------------- markup

  /** `correct_br_markup_quill(str(x))`: `str(None)` is "None". */
  function LegacyCorrectField(x: Option<string>): Option<string>
  {
    Some(CorrectBrMarkupQuill(PyStr(x)))
  }

  /** `before_insert_correct_markup`: only a person's three long texts are corrected. */
  function LegacyCorrectMarkup(e: Entity): Entity
  {
    match e
    case PersonEntity(p) =>
      PersonEntity(p.(personalInformation := LegacyCorrectField(p.personalInformation),
                      professionalInformation := LegacyCorrectField(p.professionalInformation),
                      comment := LegacyCorrectField(p.comment)))
    case _ => e
  }

  /** "None" holds no empty paragraph, so it survives the correction. */
  lemma NoneSurvives(s: string)
    requires s == "None"
    ensures CorrectBrMarkupQuill(s) == s
  {
    ShortTextLacksPattern(EmptyParagraph, s);
    CorrectWithoutPattern(s);
  }

  /** A corrected field is always present and clean; a missing one becomes the text "None";
      a field that was already clean is kept. */
  lemma LegacyCorrectFieldSpec(x: Option<string>)
    ensures CleanText(LegacyCorrectField(x))
    ensures x.None? ==> LegacyCorrectField(x) == Some("None")
    ensures CleanText(x) ==> LegacyCorrectField(x) == x
  {
    NoEmptyParagraphLeft(PyStr(x));
    if x.None? {
      NoneSurvives("None");
    }
    if CleanText(x) {
      CorrectWithoutPattern(x.value);
    }
  }

  /** Only persons change, in their three long texts, which end up clean and present; a
      patent's references are left as they are (unlike the current hook), and the
      correction is idempotent. */
  lemma LegacyCorrectMarkupEffect(e: Entity)
    ensures var r := LegacyCorrectMarkup(e);
      && (!e.PersonEntity? ==> r == e)
      && (e.PersonEntity? ==>
            && r.PersonEntity?
            && r.person.(personalInformation := e.person.personalInformation,
                         professionalInformation := e.person.professionalInformation,
                         comment := e.person.comment) == e.person
            && CleanText(r.person.personalInformation)
            && CleanText(r.person.professionalInformation)
            && CleanText(r.person.comment)
            && (e.person.comment.None? ==> r.person.comment == Some("None")))
      && LegacyCorrectMarkup(r) == r
  {
    if e.PersonEntity? {
      var p := e.person;
      LegacyCorrectFieldSpec(p.personalInformation);
      LegacyCorrectFieldSpec(p.professionalInformation);
      LegacyCorrectFieldSpec(p.comment);
      LegacyCorrectFieldSpec(LegacyCorrectField(p.personalInformation));
      LegacyCorrectFieldSpec(LegacyCorrectField(p.professionalInformation));
      LegacyCorrectFieldSpec(LegacyCorrectField(p.comment));
    }
  }

  // ---------------------------------------------------------------- insert and update

  /** The `before_insert` listener: the person check, then the markup, then the identifier. */
  function BeforeInsert(e: Entity, persons: seq<Person>, taken: set<string>, draws: seq<Draw>): Result<Entity>
  {
    if CheckPersonExists(e, persons).Fail? then Failure(IntegrityError)
    else CreateIdRef(LegacyCorrectMarkup(e), taken, draws)
  }

  /** The `before_update` listener: the person check and the markup, no identifier. */
  function BeforeUpdate(e: Entity, persons: seq<Person>): Result<Entity>
  {
    if CheckPersonExists(e, persons).Fail? then Failure(IntegrityError)
    else Success(LegacyCorrectMarkup(e))
  }

  /** Insert: IntegrityError exactly for a patent naming no person; otherwise a supplied
      identifier survives and a missing one is generated fresh. */
  lemma BeforeInsertSpec(e: Entity, persons: seq<Person>, taken: set<string>, draws: seq<Draw>)
    ensures var r := BeforeInsert(e, persons, taken, draws);
      && (r == Failure(IntegrityError) <==> e.PatentEntity? && forall p :: p in persons ==> p.id != e.patent.personId)
      && (r.Success? && CarriesId(e) ==>
            && CarriesId(r.value)
            && IdDil(r.value).Some?
            && (!IdMissing(IdDil(e)) ==> IdDil(r.value) == IdDil(e))
            && (IdMissing(IdDil(e)) ==>
                  IdDil(r.value).value !in taken && IsDilIdentifier(IdDil(r.value).value, ClassPrefix(e))))
  {
    var m := LegacyCorrectMarkup(e);
    assert CarriesId(e) ==> CarriesId(m) && IdDil(m) == IdDil(e) && ClassPrefix(m) == ClassPrefix(e);
    CreateIdRefSpec(m, taken, draws);
  }

  /** Update: the same check, and the identifier is never generated or changed. */
  lemma BeforeUpdateKeepsId(e: Entity, persons: seq<Person>)
    ensures var r := BeforeUpdate(e, persons);
      && (r.Failure? <==> e.PatentEntity? && forall p :: p in persons ==> p.id != e.patent.personId)
      && (r.Failure? ==> r.error == IntegrityError)
      && (r.Success? && CarriesId(e) ==> CarriesId(r.value) && IdDil(r.value) == IdDil(e))
  {
  }

  // ---------------------------------------------------------------- img_name

  /** `Image.generate_img_name_with_extension`: the identifier printed with `str()`, then
      the file's canonical extension; ValueError when the MIME type or its extension is
      unknown or the extension is not allowed. */
  function GenerateImgNameWithExtension(idDil: Option<string>, filePath: string, mime: MimeTypes): (r: Result<string>)
    ensures r.Success? <==>
      && mime.guessType(filePath).Some? && mime.guessType(filePath).value != ""
      && mime.guessExtension(mime.guessType(filePath).value).Some?
      && mime.guessExtension(mime.guessType(filePath).value).value in AllowedExtensions
    ensures r.Success? ==> r.value == PyStr(idDil) + mime.guessExtension(mime.guessType(filePath).value).value
    ensures r.Failure? ==> r.error == ValueError
  {
    var extension := GenerateImgName(filePath, mime);
    if extension.Failure? then Failure(extension.error) else Success(PyStr(idDil) + extension.value)
  }

  /** `set_img_name` (before insert and before update): with an uploaded file whose
      extension passes the check, the name is the identifier and the extension; with no
      file, or when the check raises (the error is swallowed), the name is cleared. */
  function SetImgName(im: Image, uploadedFilePath: Option<string>, mime: MimeTypes): (r: Image)
    ensures r.(imgName := im.imgName) == im
    ensures r.imgName.Some? <==>
      uploadedFilePath.Some? && uploadedFilePath.value != "" && GenerateImgName(uploadedFilePath.value, mime).Success?
    ensures r.imgName.Some? ==>
      && PyStr(im.idDil) <= r.imgName.value
      && r.imgName.value[|PyStr(im.idDil)|..] in AllowedExtensions
  {
    if uploadedFilePath.Some? && uploadedFilePath.value != "" then
      match GenerateImgNameWithExtension(im.idDil, uploadedFilePath.value, mime)
      case Success(name) =>
        assert name[|PyStr(im.idDil)|..] == GenerateImgName(uploadedFilePath.value, mime).value;
        im.(imgName := Some(name))
      case Failure(_) => im.(imgName := None)
    else
      im.(imgName := None)
  }

  /** Re-running the hook on its own output, as an update after an insert does with the
      same file, gives the same row. */
  lemma SetImgNameStable(im: Image, uploadedFilePath: Option<string>, mime: MimeTypes)
    ensures SetImgName(SetImgName(im, uploadedFilePath, mime), uploadedFilePath, mime) == SetImgName(im, uploadedFilePath, mime)
  {
  }

  /** An update without a file erases a stored file name, whatever it was. */
  lemma SetImgNameWithoutFileClears(im: Image, mime: MimeTypes)
    requires im.imgName.Some?
    ensures SetImgName(im, None, mime) != im
    ensures SetImgName(im, Some(""), mime).imgName.None?
  {
  }

  // ---------------------------------------------------------------- single pinned image

  /** `query(...).filter_by(patent_id=p, is_pinned=True).first()`, in table order. */
  function FirstPinned(rows: seq<PatentImage>, patentId: int): (r: Option<nat>)
    ensures r.Some? ==>
      && r.value < |rows|
      && rows[r.value].isPinned && rows[r.value].patentId == patentId
      && forall j :: 0 <= j < r.value ==> !(rows[j].isPinned && rows[j].patentId == patentId)
    ensures r.None? ==> forall j :: 0 <= j < |rows| ==> !(rows[j].isPinned && rows[j].patentId == patentId)
    decreases |rows|
  {
    if rows == [] then None
    else if rows[0].isPinned && rows[0].patentId == patentId then Some(0)
    else
      match FirstPinned(rows[1..], patentId)
      case None => None
      case Some(k) => Some(k + 1)
  }

  /** `validate_single_pinned_image`: a pinned relation is refused when the first pinned
      row of its patent is another row. The table itself is never written. */
  function ValidateSinglePinnedImage(rows: seq<PatentImage>, target: PatentImage): (r: Outcome)
    ensures !target.isPinned ==> r == Pass
    ensures r.Fail? ==>
      && r.error == ValueError
      && exists k :: 0 <= k < |rows| && rows[k].isPinned && rows[k].patentId == target.patentId && rows[k].id != target.id
  {
    if !target.isPinned then Pass
    else
      match FirstPinned(rows, target.patentId)
      case Some(k) => if rows[k].id != target.id then Fail(ValueError) else Pass
      case None => Pass
  }

  /** On a table that keeps the rule, a pinned relation passes exactly when every pinned row
      of its patent is the relation itself. */
  lemma ValidateUnderRule(rows: seq<PatentImage>, target: PatentImage)
    requires AtMostOnePinned(rows)
    ensures ValidateSinglePinnedImage(rows, target) == Pass <==>
      (target.isPinned ==> forall k :: 0 <= k < |rows| && rows[k].isPinned && rows[k].patentId == target.patentId ==>
                             rows[k].id == target.id)
  {
  }

  /** Writing a relation that passed the check keeps at most one pinned image per patent:
      the rejecting rule preserves the invariant the current model restores by unpinning. */
  lemma ValidatedWriteKeepsRule(rows: seq<PatentImage>, target: PatentImage, nextId: int)
    requires RowsValid(rows) && AtMostOnePinned(rows)
    requires target.id.None? ==> !Persisted(rows, Some(nextId))
    requires target.id.Some? ==> Persisted(rows, target.id)
    requires ValidateSinglePinnedImage(rows, target) == Pass
    ensures AtMostOnePinned(WriteRow(rows, target, nextId))
  {
    var w := WriteRow(rows, target, nextId);
    var t := target.(id := SavedId(target, nextId));
    ValidateUnderRule(rows, target);
    assert |w| == if target.id.None? then |rows| + 1 else |rows|;
    forall i | 0 <= i < |w|
      ensures || (i < |rows| && rows[i].id != target.id && w[i] == rows[i])
              || (w[i] == t && (if target.id.None? then i == |rows| else i < |rows| && rows[i].id == target.id))
    {
      if target.id.None? && i < |rows| {
        assert rows[i].id.Some?;
      }
    }
    forall i, j | 0 <= i < |w| && 0 <= j < |w| && w[i].isPinned && w[j].isPinned && w[i].patentId == w[j].patentId
      ensures i == j
    {
    }
  }

  /** The two policies on one table: the legacy rule refuses a second pinned image where
      the current one accepts it and unpins the first. */
  lemma RejectVersusRepair()
    ensures var rows := [PatentImage(Some(1), 1, 1, true)];
            var target := PatentImage(None, 1, 2, true);
            && ValidateSinglePinnedImage(rows, target) == Fail(ValueError)
            && SaveRows(rows, target, 2) == [PatentImage(Some(1), 1, 1, false), PatentImage(Some(2), 1, 2, true)]
  {
    var rows := [PatentImage(Some(1), 1, 1, true)];
    assert FirstPinned(rows, 1) == Some(0);
  }
}
