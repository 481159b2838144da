/**
  * The record-consistency rules api/models/models.py runs before every insert and update:
  * rich-text clean-up of the long text columns, the patent-needs-a-person check, the
  * renaming of uploaded images, the single-pinned-image repair, and the image card summary.
  *
  * The ORM target is a record value: a rule that assigns fields of the target here returns
  * the updated record.
  */
module Consistency {
  import opened Wrappers
  import opened Text
  import opened Identifiers
  import opened Markup
  import opened Records

  const AllowedExtensions: set<string> := {".jpg", ".jpeg", ".png", ".tiff"}
  /** The `img_name` default: no file in the image store. */
  const UnknownImageName: string := "unknown.jpg"
  /** The `reference_url` default. */
  const UnknownUrl: string := "unknown_url"
  const ImagePrefix: string := "img"

  /** The standard library's MIME tables: the type `mimetypes.guess_type` finds for a path
      and the extension `mimetypes.guess_extension` gives for a type. */
  datatype MimeTypes = MimeTypes(guessType: string -> Option<string>, guessExtension: string -> Option<string>)

  /** `generate_img_name`: the extension of the file, provided its MIME type is known and its
      canonical extension is on the allow-list; ValueError otherwise. */
  function GenerateImgName(filePath: string, mime: MimeTypes): (r: Result<string>)
    ensures r.Success? <==>
      && mime.guessType(filePath).Some? && mime.guessType(filePath).value != ""
      && mime.guessExtension(mime.guessType(filePath).value).Some?
      && mime.guessExtension(mime.guessType(filePath).value).value in AllowedExtensions
    ensures r.Success? ==> r.value == mime.guessExtension(mime.guessType(filePath).value).value
    ensures r.Failure? ==> r.error == ValueError
  {
    var mimeType := mime.guessType(filePath);
    if mimeType.None? || mimeType.value == "" then Failure(ValueError)
    else
      var extension := mime.guessExtension(mimeType.value);
      if extension.None? || extension.value !in AllowedExtensions then Failure(ValueError)
      else Success(extension.value)
  }

  // ---------------------------------------------------------------- correct_markup

  /** `correct_br_markup_quill(x or "")`: a missing text becomes the empty string. */
  function CorrectField(x: Option<string>): Option<string>
  {
    Some(CorrectBrMarkupQuill(OrEmpty(x)))
  }

  /** A text column that is present and free of empty paragraphs. */
  predicate CleanText(x: Option<string>)
  {
    x.Some? && !IsSubstring(EmptyParagraph, x.value)
  }

  /** `correct_markup`: the three long text columns of a person and the references of a
      patent are cleaned; every other entity is left alone. */
  function CorrectMarkup(e: Entity): Entity
  {
    match e
    case PersonEntity(p) =>
      PersonEntity(p.(personalInformation := CorrectField(p.personalInformation),
                      professionalInformation := CorrectField(p.professionalInformation),
                      comment := CorrectField(p.comment)))
    case PatentEntity(pt) => PatentEntity(pt.(references := CorrectField(pt.references)))
    case _ => e
  }

  /** A cleaned column is present and free of empty paragraphs; a column that already was
      is kept as it is. */
  lemma CorrectFieldClean(x: Option<string>)
    ensures CleanText(CorrectField(x))
    ensures CleanText(x) ==> CorrectField(x) == x
  {
    NoEmptyParagraphLeft(OrEmpty(x));
    if CleanText(x) {
      CorrectWithoutPattern(x.value);
    }
  }

  /** `correct_markup` changes only the four named columns, leaves them clean, and keeps the
      kind of entity. */
  lemma CorrectMarkupEffect(e: Entity)
    ensures var r := CorrectMarkup(e);
      && (!e.PersonEntity? && !e.PatentEntity? ==> r == e)
      && (e.PersonEntity? ==>
            && r.PersonEntity?
            && r.person.(personalInformation := e.person.personalInformation,
                         professionalInformation := e.person.professionalInformation,
                         comment := e.person.comment) == e.person
            && CleanText(r.person.personalInformation)
            && CleanText(r.person.professionalInformation)
            && CleanText(r.person.comment))
      && (e.PatentEntity? ==>
            && r.PatentEntity?
            && r.patent.(references := e.patent.references) == e.patent
            && CleanText(r.patent.references))
  {
    match e
    case PersonEntity(p) =>
      CorrectFieldClean(p.personalInformation);
      CorrectFieldClean(p.professionalInformation);
      CorrectFieldClean(p.comment);
    case PatentEntity(pt) =>
      CorrectFieldClean(pt.references);
    case _ =>
  }

  /** Running the hook again on its own output changes nothing. */
  lemma CorrectMarkupIdempotent(e: Entity)
    ensures CorrectMarkup(CorrectMarkup(e)) == CorrectMarkup(e)
  {
    match e
    case PersonEntity(p) =>
      CorrectFieldClean(p.personalInformation);
      CorrectFieldClean(p.professionalInformation);
      CorrectFieldClean(p.comment);
      CorrectFieldClean(CorrectField(p.personalInformation));
      CorrectFieldClean(CorrectField(p.professionalInformation));
      CorrectFieldClean(CorrectField(p.comment));
    case PatentEntity(pt) =>
      CorrectFieldClean(pt.references);
      CorrectFieldClean(CorrectField(pt.references));
    case _ =>
  }

  // ---------------------------------------------------------------- check_person_exists

  /** `check_person_exists`: a patent must name an existing person. */
  function CheckPersonExists(e: Entity, persons: seq<Person>): (r: Outcome)
    ensures r.Fail? <==> e.PatentEntity? && forall p :: p in persons ==> p.id != e.patent.personId
    ensures r.Fail? ==> r.error == IntegrityError
  {
    if e.PatentEntity? && !(exists i :: 0 <= i < |persons| && persons[i].id == e.patent.personId) then
      Fail(IntegrityError)
    else
      Pass
  }

  // ---------------------------------------------------------------- set_img_name

  /** `img_name` names a file that was uploaded: neither empty nor the default. */
  predicate HasUploadedName(im: Image)
  {
    im.imgName.Some? && im.imgName.value != "" && im.imgName.value != UnknownImageName
  }

  /** The shape of an image identifier: `img_dil_` and eight letters or digits. */
  predicate IsImageIdentifier(id: string)
  {
    |id| == 16 && id[..8] == "img_dil_" && AllAlnum(id[8..])
  }

  /** `set_img_name`: an image carrying an uploaded file name gets a fresh identifier and its
      file name becomes that identifier followed by the file's extension. The source runs this
      on every insert and every update. */
  function SetImgName(e: Entity, mime: MimeTypes, takenImageIds: set<string>, draws: seq<Draw>): Result<Entity>
  {
    if e.ImageEntity? && HasUploadedName(e.image) then
      var extension := GenerateImgName(e.image.imgName.value, mime);
      if extension.Failure? then Failure(extension.error)
      else
        match FirstUnused(DilCandidate(ImagePrefix), takenImageIds, draws)
        case None => Failure(DrawsExhausted)
        case Some(id) => Success(ImageEntity(e.image.(idDil := Some(id), imgName := Some(id + extension.value))))
    else
      Success(e)
  }

  /** The identifier the loop settles on for an image is free and of the image shape. */
  lemma ImageCandidateShape(takenImageIds: set<string>, draws: seq<Draw>)
    requires FirstUnused(DilCandidate(ImagePrefix), takenImageIds, draws).Some?
    ensures var id := FirstUnused(DilCandidate(ImagePrefix), takenImageIds, draws).value;
      id !in takenImageIds && IsImageIdentifier(id)
  {
    var gen := DilCandidate(ImagePrefix);
    FirstUnusedIsFree(gen, takenImageIds, draws);
    var id := FirstUnused(gen, takenImageIds, draws).value;
    var k :| 0 <= k < |draws| && id == gen(draws[k]);
    assert id == GenerateRandomUuid(ImagePrefix, "dil", draws[k]);
    DilImageIdentifier(id, draws[k]);
  }

  /** A `dil` identifier drawn with the image prefix has the image shape. */
  lemma DilImageIdentifier(id: string, d: Draw)
    requires id == GenerateRandomUuid(ImagePrefix, "dil", d)
    ensures IsImageIdentifier(id)
  {
    var chars := RandomSuffix(d);
    RandomSuffixShape(d);
    assert ImagePrefix + "_" + "dil" + "_" == "img_dil_";
    assert id == "img_dil_" + chars;
    assert id[..8] == "img_dil_" && id[8..] == chars;
  }

  /** The effect of `set_img_name`: nothing for any other entity or an image without an
      uploaded file; ValueError exactly when the extension check fails; otherwise a free
      identifier of the image shape, a file name made of it and an allowed extension, and
      every other column kept. */
  lemma SetImgNameEffect(e: Entity, mime: MimeTypes, takenImageIds: set<string>, draws: seq<Draw>)
    ensures var r := SetImgName(e, mime, takenImageIds, draws);
      && (!(e.ImageEntity? && HasUploadedName(e.image)) ==> r == Success(e))
      && (e.ImageEntity? && HasUploadedName(e.image) ==>
            && (r == Failure(ValueError) <==> GenerateImgName(e.image.imgName.value, mime).Failure?)
            && (r.Success? ==>
                  && r.value.ImageEntity?
                  && var im := r.value.image;
                  && im.idDil.Some?
                  && im.idDil.value !in takenImageIds
                  && IsImageIdentifier(im.idDil.value)
                  && im.imgName.Some?
                  && im.imgName.value[..16] == im.idDil.value
                  && im.imgName.value[16..] in AllowedExtensions
                  && im.(idDil := e.image.idDil, imgName := e.image.imgName) == e.image))
  {
    if e.ImageEntity? && HasUploadedName(e.image) {
      var found := FirstUnused(DilCandidate(ImagePrefix), takenImageIds, draws);
      var extension := GenerateImgName(e.image.imgName.value, mime);
      if found.Some? && extension.Success? {
        ImageCandidateShape(takenImageIds, draws);
        var id := found.value;
        assert (id + extension.value)[..16] == id && (id + extension.value)[16..] == extension.value;
      }
    }
  }

  // ---------------------------------------------------------------- card_meta

  datatype CardMeta = CardMeta(labelText: string, onIiif: string, onUrlRef: string, onFilestore: string)

  /** `Image.card_meta`: where the image can be found, "unk" standing for unknown. */
  function ImageCardMeta(im: Image): (m: CardMeta)
    ensures m.labelText == im.labelText
    ensures m.onIiif == "unk" <==> im.iiifUrl.None? || im.iiifUrl == Some("unk")
    ensures m.onUrlRef == "unk" <==> im.referenceUrl == UnknownUrl || im.referenceUrl == "unk"
    ensures m.onFilestore == "false" <==> im.imgName == Some(UnknownImageName)
    ensures m.onFilestore == "true" || m.onFilestore == "false"
    ensures im.iiifUrl.Some? ==> m.onIiif == im.iiifUrl.value
    ensures im.referenceUrl != UnknownUrl ==> m.onUrlRef == im.referenceUrl
  {
    CardMeta(
      im.labelText,
      if im.iiifUrl.Some? then im.iiifUrl.value else "unk",
      if im.referenceUrl != UnknownUrl then im.referenceUrl else "unk",
      if im.imgName != Some(UnknownImageName) then "true" else "false")
  }

  /** An image renamed by `set_img_name` is reported as present in the file store. */
  lemma RenamedImageOnFilestore(e: Entity, mime: MimeTypes, takenImageIds: set<string>, draws: seq<Draw>)
    requires e.ImageEntity? && HasUploadedName(e.image)
    requires SetImgName(e, mime, takenImageIds, draws).Success?
    ensures ImageCardMeta(SetImgName(e, mime, takenImageIds, draws).value.image).onFilestore == "true"
  {
    SetImgNameEffect(e, mime, takenImageIds, draws);
    var im := SetImgName(e, mime, takenImageIds, draws).value.image;
    assert im.imgName.value[..4] == "img_" by {
      assert im.imgName.value[..4] == im.imgName.value[..16][..4];
    }
    assert UnknownImageName[..4] == "unkn";
  }
}
