# dil-app consistency rules, in Dafny

This project models the deterministic core of dil-app, a directory of nineteenth-century
Parisian printers and lithographers with their patents, cities and images. It covers:

- the record-consistency rules the ORM runs around every insert, update and delete. These are:
  - the external identifier `_id_dil` and the loop that keeps it unique;
  - the rich-text clean-up;
  - the existing-person check;
  - the image allow-list and naming;
  - the single-pinned-image repair;
  - the full-text index hooks;
- the admin form reconciliation for a printer: grouping the form, choosing the pinned image, and
  reconciling the patent relations;
- the name and partial-date utilities and the date-format validator;
- the full-text search dispatch and the bulk index population;
- the read-side aggregation of the public API and of the admin views;
- the two earlier model layers that are still in the repository. One rejects a second pinned
  image; the other is the archive the application entry point imports.

Randomness, MIME sniffing, ASCII folding, markup stripping, URL building and the index engine
are parameters. Database answers are sequences of rows in query order. Objects whose fields the
source updates in place are classes: the search index, the index writer, the
`patent_has_images` table, the admin session and the printer change handler.

Modules, one per file:

- `Wrappers`: `Option`, `Result`, `Outcome` and the error kinds.
- `Text`: Python string built-ins.
- `Records`: the rows.
- `Identifiers`, `Markup`, `Consistency`, `PinRepair` and `IndexHooks`: api/models/models.py.
- `ModelHandler`: api/admin/model_handler.py.
- `Dates` and `Firstnames`: api/api_utils.py.
- `Validators`: api/admin/validators.py.
- `Search`: api/index_fts/search_utils.py.
- `IndexPopulation`: api/index_fts/index_utils.py.
- `Routes`: api/routes.py.
- `AdminViews`: api/admin/views.py.
- `LegacyModels`: api/models_old.py.
- `ArchiveModels`: app/models_archive/models.py.

Where the repository's prose documentation and its code disagree, the model follows the code:

- `set_img_name` gives an image a new identifier on every update that carries an uploaded
  file name. It does not assign the identifier only once.
- `read_printers` lists each person once per page. The join has one row per matching patent,
  and the single-entity ORM query keeps the first row of each person on the fetched page.
- The index update hook appends a document rather than replacing the old one (see Findings).

## Model

| member | source | states |
|---|---|---|
| Identifiers.Base64UrlEncode | api/models/models.py:71-76 | base64url of the UUID bytes: 4 characters per started 3-byte group, every character from the RFC 4648 section 5 alphabet or '=' |
| Identifiers.RandomSuffixShape | api/models/models.py:75-81 | the suffix is exactly 8 ASCII letters or digits: the first 8 base64url characters, each '-' or '_' replaced by the drawn letter |
| Identifiers.ReplacePunctuation | api/models/models.py:79-81 | same length; a punctuation character becomes the letter drawn for its position, every other character is kept |
| Identifiers.GenerateRandomUuidShape | api/models/models.py:71-82 | the identifier is `prefix_provider_` when the provider is non-empty, `prefix_` otherwise, followed by the 8-character alphanumeric suffix |
| Identifiers.FirstUnusedIsFree | api/models/models.py:145-150 | the candidate the loop settles on was generated and is carried by no row; there is none only when every drawn candidate is taken |
| Identifiers.GenerateUniqueId | api/models/models.py:145-150 | the while loop returns that candidate; every candidate it rejected was taken, the returned one is not |
| Markup.NoEmptyParagraphLeft | api/models/models.py:85-87 | the corrected text contains no `<p><br></p>` |
| Markup.CorrectWithoutPattern | api/models/models.py:85-87 | text without an empty paragraph is returned unchanged |
| Markup.CorrectIdempotent | api/models/models.py:85-87 | correcting twice is correcting once |
| Markup.CorrectExample | api/models/models.py:85-87 | `<p><br></p><p>X</p>` becomes `<br /><p>X</p>` |
| Markup.SanitizeEnumKeyByChar | api/models/models.py:100-112 | the sanitised key holds no space, hyphen or apostrophe |
| Markup.SanitizeEnumKeyOnePass | api/models/models.py:100-112 | the three chained replaces equal one per-character pass; the key has no space, hyphen or apostrophe left |
| Markup.SanitizeEnumKeyKeepsClean | api/models/models.py:100-112 | a key already free of those characters is kept as it is |
| Consistency.GenerateImgName | api/models/models.py:153-164 | success exactly when the MIME type is known and its canonical extension is in the allow-list of line 43; the result is that extension; ValueError otherwise |
| Consistency.CorrectFieldClean | api/models/models.py:166-174 | a corrected column is present (None becomes "") and clean; a clean column is kept |
| Consistency.CorrectMarkupEffect | api/models/models.py:166-174 | only the three long texts of a person and a patent's references change, and they end clean; every other entity is untouched |
| Consistency.CorrectMarkupIdempotent | api/models/models.py:166-174 | running the hook on its own output changes nothing |
| Consistency.CheckPersonExists | api/models/models.py:176-180 | IntegrityError exactly for a patent whose person_id matches no person |
| Consistency.ImageCandidateShape | api/models/models.py:184-196 | the identifier found for an image is free and has the shape `img_dil_` plus 8 letters or digits |
| Consistency.SetImgNameEffect | api/models/models.py:184-196 | an entity that is not an image, or an image whose name is empty or "unknown.jpg", is left alone; ValueError exactly when the extension check fails; otherwise a fresh identifier, a name made of that identifier and an allowed extension, and no other column changed |
| Consistency.ImageCardMeta | api/models/models.py:666-673 | label copied; the IIIF URL when present and the reference URL when known are copied, "unk" otherwise; "false" on the file store exactly for "unknown.jpg", "true" otherwise |
| Consistency.RenamedImageOnFilestore | api/models/models.py:184-196 | an image that `set_img_name` renamed is reported as on the file store |
| PinRepair.SaveRowsShape | api/models/models.py:198-208 | saving keeps ids distinct, stores the row under its id, keeps the id, patent and image of every other row |
| PinRepair.PinnedSaveIsOnlyPinned | api/models/models.py:198-208 | after a pinned save the saved row is the only pinned row of its patent |
| PinRepair.UnpinnedSaveOnlyWrites | api/models/models.py:198-208 | an unpinned target triggers no update |
| PinRepair.SaveLeavesOtherPatents | api/models/models.py:198-208 | rows of other patents are unchanged |
| PinRepair.SaveKeepsAtMostOnePinned | api/models/models.py:198-208 | saving keeps at most one pinned image per patent |
| PinRepair.PatentImageTable.Save | api/models/models.py:198-208 | the table method: new rows equal the pure specification, next id advances on insert, the saved row is the only pinned one of its patent |
| PinRepair.PinTwiceExample | api/models/models.py:198-208 | pinning image 2 and then image 3 leaves only image 3 pinned |
| IndexHooks.FoldName | api/models/models.py:224-227 | a folded name holds no ASCII upper-case letter |
| IndexHooks.FirstnamesLastnameCommas | api/models/models.py:234 | `firstnames_lastname` is the first names with each comma turned into a space, a space, then the last name |
| IndexHooks.PersonDocumentShape | api/models/models.py:219-238 | the hook document: printed identifier, folded lower-case names, prepared content, its folded n-gram copy, the combined name field |
| IndexHooks.DeleteByTerm | api/models/models.py:263-269 | deletion by term removes exactly the documents with that identifier |
| IndexHooks.DeleteByTermCount | api/models/models.py:263-269 | no document with the identifier is left; counts of other identifiers are unchanged |
| IndexHooks.DeleteByTermKeepsOnePerId | api/models/models.py:263-269 | deletion keeps one document per identifier |
| IndexHooks.SearchIndex.AddDocument | api/models/models.py:228-238 | the document is appended |
| IndexHooks.SearchIndex.DeleteDocumentsByTerm | api/models/models.py:266-268 | the stored documents become the filtered sequence |
| IndexHooks.InsertPersonIndex | api/models/models.py:239-259 | a person insert appends its document; a failure to open or write the index, or any other entity, leaves the index as it was; the error is swallowed as the hook wrapper at lines 51-68 does, so no exception escapes |
| IndexHooks.UpdatePersonIndex | api/models/models.py:217-238 | as written, the update hook appends a new document and keeps the old one |
| IndexHooks.UpdatePersonIndexReplacing | api/models/models.py:217-238 | corrected update: delete by identifier, then add, keeping one document per person |
| IndexHooks.DeletePersonIndex | api/models/models.py:261-269 | a person delete leaves no document with its identifier |
| IndexHooks.AppendOverStoredBreaksOnePerId | api/models/models.py:217-238 | appending under a stored identifier leaves two documents for it |
| IndexHooks.InsertThenUpdateDuplicates | api/models/models.py:217-261 | insert then update of one person leaves exactly two documents for it |
| IndexHooks.ReplaceKeepsOnePerId | api/models/models.py:217-238 | replacing leaves exactly one document for the identifier and keeps the rule |
| IndexHooks.InsertNewKeepsOnePerId | api/models/models.py:239-261 | inserting a person not yet indexed keeps one document per identifier |
| ModelHandler.GroupFormData | api/admin/model_handler.py:75-100 | the loop over the block indices computes the grouped form |
| ModelHandler.GroupFormSpec | api/admin/model_handler.py:75-100 | keys are below len(patents_id); each entry's patent id is one of the printer's patents; absent lists are empty, an absent pinned value is None |
| ModelHandler.MissingIdReadsAsZero | api/admin/model_handler.py:89-92 | a missing or empty id reads as 0 and is kept only when 0 is a valid patent id |
| ModelHandler.NonNumericIdSkipped | api/admin/model_handler.py:89-99 | an id `int` rejects skips the block instead of raising |
| ModelHandler.PatentIdsOf | api/admin/model_handler.py:71-72 | exactly the ids of the printer's patents |
| ModelHandler.FirstImageIndex | api/admin/model_handler.py:109-111 | the first row of the patent showing the image, or -1 when there is none |
| ModelHandler.PinSelectedSpec | api/admin/model_handler.py:102-129 | only pin flags of the patent's rows change; a row of the patent is pinned exactly when it is the selected relation |
| ModelHandler.PinSelectedExactlyOne | api/admin/model_handler.py:108-118 | when a row of the patent shows the image, exactly that first-found row is pinned among the patent's rows |
| ModelHandler.PinSelectedKeepsRule | api/admin/model_handler.py:102-129 | pinning keeps at most one pinned image per patent |
| ModelHandler.PinSelectedNoRelations | api/admin/model_handler.py:113-129 | a patent without image rows is unchanged |
| ModelHandler.PinSelectedIdempotent | api/admin/model_handler.py:102-129 | pinning the same image twice is pinning it once |
| ModelHandler.PinGroupsFailStays | api/admin/model_handler.py:106-111 | once a block's selection fails `int`, the error is what the update returns |
| ModelHandler.PinGroupsKeepRule | api/admin/model_handler.py:102-129 | the whole update keeps the single-pinned rule; a falsy selection leaves its patent unchanged |
| ModelHandler.FirstRelationIndex | api/admin/model_handler.py:160-165 | the first matching relation row, or -1 when there is none |
| ModelHandler.AddOrUpdateSpec | api/admin/model_handler.py:157-178 | a matching row is reused and nothing is inserted; otherwise one row with the next key is appended; the handled key is appended to the final list |
| ModelHandler.Zip | api/admin/model_handler.py:145 | pairs of equal positions, as many as the shorter list |
| ModelHandler.Classified | api/admin/model_handler.py:145-147 | each entry classified as blank, not an integer, or a printer id |
| ModelHandler.RunEntriesFails | api/admin/model_handler.py:145-147 | the entry loop raises exactly when some non-blank printer entry is not an integer |
| ModelHandler.RelationIds | api/admin/model_handler.py:141-142 | exactly the keys of the patent's rows |
| ModelHandler.KeepRowsMember | api/admin/model_handler.py:150-154 | a row survives deletion exactly when its key is not dropped |
| ModelHandler.KeepRowsValid | api/admin/model_handler.py:150-154 | deletion keeps keys distinct and below the next key |
| ModelHandler.KeepRowsTwice | api/admin/model_handler.py:150-154 | deleting one set of keys and then another is deleting their union |
| ModelHandler.RunEntriesKeepsInv | api/admin/model_handler.py:145-147 | the entry loop keeps the table invariant, and the handled pairs are the entries' pairs |
| ModelHandler.SurvivorsDistinctKeys | api/admin/model_handler.py:138-155 | two surviving rows of the patent with one (printer, type) pair are the same row |
| ModelHandler.FinalRowsOwned | api/admin/model_handler.py:138-155 | every surviving row of the patent belongs to the edited printer and carries a submitted pair |
| ModelHandler.FinalRowsCover | api/admin/model_handler.py:138-155 | every submitted pair keeps a row |
| ModelHandler.FinalRowsUnique | api/admin/model_handler.py:138-155 | no pair has two surviving rows on the patent |
| ModelHandler.FinalRowsOthers | api/admin/model_handler.py:138-155 | rows of other patents are untouched |
| ModelHandler.ProcessedRelationsSpec | api/admin/model_handler.py:138-178 | ValueError exactly when a non-blank entry is not an integer, and then earlier inserts stay; otherwise the patent's rows are exactly one per submitted pair, owned by the printer, and other patents are untouched |
| ModelHandler.RelationGroupsFailStays | api/admin/model_handler.py:131-136 | blocks run in index order; the first error stops the update |
| ModelHandler.RelationGroupsValid | api/admin/model_handler.py:131-136 | the whole relation update keeps the relation keys distinct and below the next key |
| ModelHandler.PrinterModelChangeHandler.PrepareGroupedData | api/admin/model_handler.py:67-73 | the grouped data is the grouping of the form over the printer's patents |
| ModelHandler.PrinterModelChangeHandler.PinPatent | api/admin/model_handler.py:108-127 | the two flag-setting loops leave the image rows equal to the pure pinning function |
| ModelHandler.PrinterModelChangeHandler.UpdatePinnedImages | api/admin/model_handler.py:102-129 | the image rows and outcome equal the pure pinning over all blocks |
| ModelHandler.PrinterModelChangeHandler.AddOrUpdateRelation | api/admin/model_handler.py:157-178 | the relation rows, next key and final list equal the pure add-or-update, and the session's key invariant is kept |
| ModelHandler.PrinterModelChangeHandler.DeleteObsoleteRelations | api/admin/model_handler.py:149-155 | the deletion loop removes exactly the patent's former rows that no entry handled, and the session's key invariant is kept |
| ModelHandler.PrinterModelChangeHandler.ProcessPatentRelations | api/admin/model_handler.py:138-155 | the relation rows, next key and outcome equal the pure processing of the block, and the session's key invariant is kept |
| ModelHandler.PrinterModelChangeHandler.UpdatePatentRelations | api/admin/model_handler.py:131-136 | every block in order, equal to the pure relation update, and the session's key invariant is kept |
| ModelHandler.PrinterModelChangeHandler.AfterModelChange | api/admin/model_handler.py:60-65 | pins first, then relations; an error in the first step skips the second; the session's key invariant is kept |
| ModelHandler.PrinterModelChangeHandler.OnModelChange | api/admin/model_handler.py:47-56 | groups the form, then runs the circular-relation check on every non-blank entry; the first error is returned |
| ModelHandler.CheckEntries | api/admin/model_handler.py:54-56 | the inner loop returns the first failing check of a block |
| ModelHandler.CheckEntriesPass | api/admin/model_handler.py:54-56 | a block passes exactly when every entry is blank or an integer the check accepts |
| Firstnames.CommaFixSpaced | api/api_utils.py:33 | after the comma fix every comma is followed by a space |
| Firstnames.FinalCommaCut | api/api_utils.py:34 | the cut drops a final comma and the whitespace after it, and nothing else |
| Firstnames.CollapseSpaces | api/api_utils.py:35 | the result holds no two adjacent whitespace characters |
| Firstnames.CollapseKeepsCommaSpaced | api/api_utils.py:35 | collapsing whitespace keeps every comma followed by a space |
| Firstnames.FinalCutKeepsCommaSpaced | api/api_utils.py:34 | cutting the final comma keeps every other comma followed by a space |
| Firstnames.NormalizeFirstnamesShape | api/api_utils.py:30-37 | a falsy value is returned as it is; otherwise every comma is followed by one space and no whitespace is doubled |
| Firstnames.NormalizeTwoNames | api/api_utils.py:30-37 | two names around any comma-and-whitespace separator, with any padding, give `x, y` |
| Firstnames.NormalizeTwoNamesFinalComma | api/api_utils.py:30-37 | a trailing comma after two names goes |
| Firstnames.NormalizeFirstnamesExample1 | api/api_utils.py:16-17 | `"  Auguste,Titus  "` gives `"Auguste, Titus"` |
| Firstnames.NormalizeFirstnamesExample2 | api/api_utils.py:18-19 | `"  Auguste ,  Titus  "` gives `"Auguste, Titus"` |
| Firstnames.NormalizeFirstnamesExample3 | api/api_utils.py:20-21 | `"  Auguste  , Titus, "` gives `"Auguste, Titus"` |
| Firstnames.NormalizeFirstnamesDoubledComma | api/api_utils.py:33-34 | as written, `x, ,` gives `x, `, which normalises again to `x` |
| Firstnames.NormalizeFirstnamesFixedShape | api/api_utils.py:33-35 | the corrected chain ends with neither a comma nor whitespace, and keeps comma spacing and single whitespace |
| Firstnames.NormalizeFirstnamesFixedAgrees | api/api_utils.py:30-37 | the correction changes nothing where the original result already ends with a name |
| Firstnames.NormalizeFirstnamesFixedDoubledComma | api/api_utils.py:33-34 | the corrected chain gives `x` for `x, ,` |
| Firstnames.NormalizeFirstnamesFixedIdempotent | api/api_utils.py:30-37 | with the correction, normalising a normalised value changes nothing, for every value |
| Dates.NormalizeDateSpec | api/api_utils.py:58-64 | every `~` removed; no dash gives `-01-01`, one dash gives `-01`, more are returned as they are (api/routes.py:44-51 holds the same code as the route module's own `normalize_date`) |
| Dates.NormalizeDateIdempotent | api/api_utils.py:39-64 | normalising twice is normalising once |
| Dates.NormalizeDateOfYear | api/api_utils.py:58-61 | `YYYY` and `~YYYY` give `YYYY-01-01` |
| Dates.NormalizeDateOfYearMonth | api/api_utils.py:58-63 | `YYYY-MM` gives `YYYY-MM-01` |
| Dates.NormalizeDateOfFullDate | api/api_utils.py:58-64 | a full date, with or without `~`, gives the date |
| Dates.YearBounds | api/api_utils.py:67-76 | ValueError exactly when the first four characters are not an integer |
| Dates.YearBoundsOfValue | api/api_utils.py:75-76 | the bounds are the year's printed value with `-01-01` and `-12-31` |
| Dates.YearBoundsOfDigits | api/api_utils.py:75-76 | four leading digits give bounds from their value |
| Dates.YearBoundsExample | api/api_utils.py:75-76 | `1855-..` gives `(1855-01-01, 1855-12-31)` |
| Dates.YearBoundsLeadingZeroExample | api/api_utils.py:75-76 | `0855` gives `855-01-01`: the year is not zero-padded |
| Dates.YearBoundsBlankExample | api/api_utils.py:75 | blank text raises ValueError |
| Dates.DaysInMonth | api/api_utils.py:94-104 | the Gregorian month length is between 28 and 31 |
| Dates.MonthBoundsSpec | api/api_utils.py:94-97 | `YYYY-MM` gives the first and last day of the month; a month outside 1..12 raises ValueError |
| Dates.YearPeriodSpec | api/api_utils.py:98-100 | `YYYY` gives `(YYYY-01-01, YYYY-12-31)` |
| Dates.PeriodBoundsExact | api/api_utils.py:91-100 | after strip: a full date gives `(s, s)`, a month its bounds, a year its bounds |
| Dates.PeriodBoundsFallback | api/api_utils.py:101-108 | otherwise the first 7 characters if they are a month, else the first 4 if they are a year, else `(None, None)` |
| Dates.PeriodBoundsNotDigit | api/api_utils.py:91-108 | text not starting with a digit gives `(None, None)` |
| Dates.PeriodBoundsNone | api/api_utils.py:91-108 | `None`, blank text and `~…` give `(None, None)` |
| Dates.PeriodStartIsNormalizedDate | api/api_utils.py:91-100 | for the three exact forms the start bound is the normalised date |
| Dates.MonthBoundsOrdered | api/api_utils.py:94-97 | a month's first day is not after its last day in string order |
| Dates.YearPeriodOrdered | api/api_utils.py:98-100 | a year's first day is not after its last day in string order |
| Dates.PeriodBoundsOrdered | api/api_utils.py:92-107 | whenever there are bounds, the start is not after the end in string order |
| Validators.IsValidDateSpec | api/admin/validators.py:9-16 | ValidationError exactly when `str(data)` fails the recogniser; a missing value ("None") fails |
| Validators.MonthFieldValue | api/admin/validators.py:6 | the month alternatives accept exactly 01..12 |
| Validators.DayFieldValue | api/admin/validators.py:6 | the day alternatives accept exactly 01..31 |
| Validators.ParseBodyRoundTrip | api/admin/validators.py:6 | an accepted body read back as a partial date prints as the same text |
| Validators.FormatDateAccepted | api/admin/validators.py:6-7 | every well-formed partial date, with or without `~`, is accepted, and so is it followed by one newline |
| Validators.ParseDate | api/admin/validators.py:6-7 | every accepted text is a well-formed partial date's text, possibly with one final newline |
| Validators.IsCustomDateFormatIff | api/admin/validators.py:6-7 | accepted texts are exactly the printed well-formed partial dates, optionally with one final newline |
| Validators.StripAccepted | api/admin/validators.py:6-7 | strip removes the tolerated newline and nothing else |
| Validators.AcceptedExactDateHasBounds | api/admin/validators.py:6 | an accepted date without `~` always has period bounds |
| Validators.AcceptedApproximateHasNoBounds | api/admin/validators.py:6 | an accepted `~` date has no period bounds |
| Validators.AcceptsImpossibleDay | api/admin/validators.py:6 | `1850-02-31` is accepted: there is no calendar check |
| Validators.AcceptsPartialForms | api/admin/validators.py:6-7 | `1850`, `1850-12`, `~1850-12-01` and `1850` followed by a newline are accepted |
| Validators.RejectsMalformed | api/admin/validators.py:6-7 | `1850-1-1`, `18500`, `~~1850` and the empty string are rejected |
| Validators.RejectsOutOfRange | api/admin/validators.py:6 | month 13 and day 32 are rejected |
| Search.RemoveFirstJoker | api/index_fts/search_utils.py:21-25 | one character is dropped or the query is kept |
| Search.RemoveFirstJokerStripped | api/index_fts/search_utils.py:21-25 | on a stripped query exactly one leading `*` goes and nothing else changes |
| Search.RemoveFirstJokerDouble | api/index_fts/search_utils.py:21-25 | `**a` becomes `*a` |
| Search.NormalizeContentQueryIsPiece | api/index_fts/search_utils.py:28 | the content query is a slice of the raw query: no lowercasing or folding |
| Search.LoneJokerIsEmpty | api/index_fts/search_utils.py:27-31 | a lone `*` normalises to nothing in both fields |
| Search.ChooseQuerySpec | api/index_fts/search_utils.py:30-48 | no query when both are empty; each field searched exactly when its query is non-empty; AND grouping for one field, two default-grouped parses conjoined for two |
| Search.HitMapDomain | api/index_fts/search_utils.py:51-53 | one key per identifier found |
| Search.HitMapLastWins | api/index_fts/search_utils.py:51-53 | an identifier's entry is the highlight of its last hit, or None without content |
| Search.BuildHits | api/index_fts/search_utils.py:51-53 | the loop builds the hit map |
| Search.SearchWhoosh | api/index_fts/search_utils.py:14-55 | a searcher is opened exactly when a normalised query is non-empty; otherwise the result is empty; else the hit map of the chosen query's results |
| Search.LaterHitWins | api/index_fts/search_utils.py:51-53 | of two hits for one person the later highlight is kept |
| IndexPopulation.PatentsOf | api/index_fts/index_utils.py:32 | only patents of the person, taken from the table |
| IndexPopulation.ContentPieces | api/index_fts/index_utils.py:27-35 | two information pieces, then one piece per patent |
| IndexPopulation.CollectSources | api/index_fts/index_utils.py:31-33 | the loop collects each patent's references, a missing one as "" |
| IndexPopulation.BulkDocuments | api/index_fts/index_utils.py:24-44 | one document per person queried |
| IndexPopulation.IndexWriter.Commit | api/index_fts/index_utils.py:46 | pending documents become stored, in order |
| IndexPopulation.PopulateIndex | api/index_fts/index_utils.py:23-47 | the index gains exactly the bulk documents, one per person in query order, at the single commit |
| IndexPopulation.BulkDocumentsShape | api/index_fts/index_utils.py:38-44 | printed identifier, names as stored (missing as ""), no n-gram and no combined name field |
| IndexPopulation.BulkDiffersFromHook | api/index_fts/index_utils.py:41-44 | the bulk document is never the one the mutation hooks write |
| IndexPopulation.ContentStartsWithInformation | api/index_fts/index_utils.py:27-35 | the joined text starts with the personal information, a space, the professional information |
| IndexPopulation.BulkDocumentsOnePerId | api/index_fts/index_utils.py:23-47 | persons with distinct identifiers give one document per identifier |
| Routes.Pinned | api/routes.py:84 | exactly the pinned images, in order |
| Routes.PinnedAppend | api/routes.py:72-84 | pinned images of patents in turn, in patent-then-relation order |
| Routes.SumLengthsIsAll | api/routes.py:92 | the total is the number of all listed images |
| Routes.ReadImages | api/routes.py:63-98 | 404 for an unknown person; otherwise the per-patent lists, the total, the pinned list and its length |
| Routes.PinnedAtMostOnePerPatent | api/routes.py:72-93 | with at most one pinned image per patent, the pinned count is at most the number of patents |
| Routes.Keep | api/routes.py:141-158 | a filter keeps exactly the rows passing its test |
| Routes.SelectRowsSpec | api/routes.py:141-158 | a row is kept exactly when it passes the city filter (when the query is truthy) and the date filter (when the query has at least 4 characters) |
| Routes.ExactDateIsRaw | api/routes.py:149-158 | exact mode compares with the raw query: `1855` does not match `1855-03-01`; non-exact mode matches it |
| Routes.NonExactLaterDate | api/routes.py:154-158 | a later date matches in non-exact mode |
| Routes.NonExactEarlierDate | api/routes.py:154-158 | an earlier date not starting with the query does not match |
| Routes.Summaries | api/routes.py:167-176 | summaries only for rows with a truthy identifier; every identified row's person has its summary, and every summary comes from such a row |
| Routes.SummariesKeepIdentified | api/routes.py:167-176 | every identified row gives one summary with its identifier |
| Routes.SummariesDropUnidentified | api/routes.py:175 | a row with a falsy identifier is dropped |
| Routes.PageOf | api/routes.py:161-166 | a page holds at most the page size of rows, all of them selected rows |
| Routes.DistinctPersons | api/routes.py:131-160 | the rows of the page with each person once, at its first row: the same persons, pairwise distinct, drawn from the page |
| Routes.SummariesDistinct | api/routes.py:167-176 | distinct persons of a consistent join give summaries with pairwise distinct identifiers |
| Routes.OnePerPerson | api/routes.py:160-176 | after de-duplication the summaries carry distinct identifiers and include every identified person of the page |
| Routes.ReadPrinters | api/routes.py:109-187 | 404 for an empty page; otherwise the summaries of the page's distinct persons: one per identified person, no identifier twice |
| AdminViews.FindImage | api/admin/views.py:489 | the image with the requested id, or none when no image has it |
| AdminViews.GetImageDetailsSpec | api/admin/views.py:482-502 | 400 for a missing id, 404 for an unknown image, otherwise its details; the URL falls back to the IIIF URL when the name is None |
| AdminViews.SortPersonsSpec | api/admin/views.py:515 | the ordering by (lastname, firstnames) is sorted and a permutation |
| AdminViews.Matching | api/admin/views.py:507-514 | exactly the persons whose lastname or firstnames contain the lowercased term, case-insensitively |
| AdminViews.PrinterQuerySpec | api/admin/views.py:507-516 | at most 20 matching persons, sorted, and none left out sorts before one kept |
| AdminViews.AjaxPrinters | api/admin/views.py:505-521 | one option per queried person, id and repr |
| AdminViews.RelationsOf | api/admin/views.py:538-542 | exactly the relations of the person |
| AdminViews.PatentOrderSpec | api/admin/views.py:545-548 | group keys are distinct and are exactly the patents seen, in order of first appearance |
| AdminViews.GroupsPartitionRows | api/admin/views.py:545-552 | group sizes add up to the number of rows: each row is in exactly one group |
| AdminViews.Reindex | api/admin/views.py:554-555 | keys "0".."n-1", key i holding the group of the i-th patent |
| AdminViews.GroupRelations | api/admin/views.py:545-552 | the loop builds the groups in first-appearance order, each group in query order |
| AdminViews.GetPatentRelations | api/admin/views.py:536-557 | the result has keys "0".."n-1", each the group of the corresponding patent |
| LegacyModels.CreateIdRefSpec | api/models_old.py:120-132 | a supplied id is kept and nothing changes; a missing or empty one becomes a free `prefix_dil_` id of 8 alphanumerics, nothing else changing; failure only when every candidate is taken |
| LegacyModels.DilCandidateShape | api/models_old.py:51-62 | a candidate is the class prefix, `_dil_`, then 8 letters or digits |
| LegacyModels.BeforeInsertCreateIdRef | api/models_old.py:109-132 | the while loop settles on the identifier of the pure hook |
| LegacyModels.LegacyCorrectFieldSpec | api/models_old.py:65-67 | a corrected field is present and clean; None becomes the text "None"; a clean field is kept |
| LegacyModels.NoneSurvives | api/models_old.py:134-140 | the text "None" that a missing comment becomes passes the clean-up unchanged |
| LegacyModels.LegacyCorrectMarkupEffect | api/models_old.py:134-140 | only a person's three texts change and end clean ("None" for a missing comment); patents are left alone; the hook is idempotent |
| LegacyModels.BeforeInsertSpec | api/models_old.py:142-156 | IntegrityError exactly for a patent naming no person; otherwise a supplied id survives and a missing one is generated fresh |
| LegacyModels.BeforeUpdateKeepsId | api/models_old.py:159-163 | the same check on update, and the identifier never changes |
| LegacyModels.GenerateImgNameWithExtension | api/models_old.py:397-414 | success exactly when the MIME type and its extension are known and allowed; the name is the printed id then the extension; ValueError otherwise (app/models_archive/models.py:308-324 is the same code) |
| LegacyModels.SetImgName | api/models_old.py:420-437 | no other column changes; a name exactly when a file is given and its check passes, then the id followed by an allowed extension; otherwise None (app/models_archive/models.py:326-343 is the same code) |
| LegacyModels.SetImgNameStable | api/models_old.py:420-437 | re-running the hook with the same file gives the same row |
| LegacyModels.SetImgNameWithoutFileClears | api/models_old.py:435-437 | without a file a stored name is erased |
| LegacyModels.FirstPinned | api/models_old.py:559-561 | the first pinned row of the patent in table order, or none |
| LegacyModels.ValidateSinglePinnedImage | api/models_old.py:549-567 | an unpinned target passes; a refusal is a ValueError and another pinned row of the patent exists; it never writes (app/models_archive/models.py:442-460 is the same code) |
| LegacyModels.ValidateUnderRule | api/models_old.py:549-567 | on a table keeping the rule, a pinned relation passes exactly when every pinned row of its patent is itself |
| LegacyModels.ValidatedWriteKeepsRule | api/models_old.py:549-567 | writing a relation that passed keeps at most one pinned image per patent |
| LegacyModels.RejectVersusRepair | api/models_old.py:562-566 | a second pinned image is refused here, where the current rule accepts it and unpins the first |
| ArchiveModels.ReplacePunctuationWithRandom | app/models_archive/models.py:49-62 | the concatenation loop replaces each punctuation character by its drawn letter and keeps the rest |
| ArchiveModels.ArchiveSuffixAgrees | app/models_archive/models.py:64-75 | replacing over the padded text and then cutting to 8 gives the current suffix: exactly 8 letters or digits |
| ArchiveModels.ArchiveUuidAgrees | app/models_archive/models.py:44-77 | for the same draw the archive's identifier equals the current one; the provider segment is present exactly when the provider is non-empty |
| ArchiveModels.GenerateArchiveUuid | app/models_archive/models.py:64-77 | the generator as run: encode, replace, cut, assemble |
| ArchiveModels.ArchiveFirstUnusedAgrees | app/models_archive/models.py:123-132 | the generate-and-recheck loop settles on the same identifier with either generator |
| ArchiveModels.ArchiveInsertAsWritten | app/models_archive/models.py:117-150 | as written the listener never runs: a row is stored unchanged, and one without `_id_dil` is refused by the NOT NULL column with IntegrityError |
| ArchiveModels.ArchiveListenerNeverRuns | app/models_archive/models.py:134-150 | on a row without an identifier the written insert and the intended listener differ: the intended one succeeds with a new identifier |
| ArchiveModels.ArchiveCreateIdRefSpec | app/models_archive/models.py:134-150 | the listener as intended equals the legacy identifier step: a supplied id is kept, a missing one becomes a free identifier of the class's shape (see Findings) |
| ArchiveModels.ArchiveBeforeInsert | app/models_archive/models.py:123-150 | the while loop computes the intended listener's result |
| ArchiveModels.ArchiveInsertSkipsChecks | app/models_archive/models.py:148-150 | with an id supplied the archive inserts unchanged, even a patent naming no person that the legacy insert refuses |

## Left out

- The ORM, the database and the web framework are not modelled. Tables are sequences of rows in
  query order, and a `.first()` without ORDER BY is the first row in table order.
- The database session's commits and rollbacks are not modelled. Each step's writes are visible at once.
- A database error or an exception turning into an HTTP 500 response is not modelled.
- `uuid.uuid4` and `random.choice` are a `Draw` parameter. The letter for a punctuation character is
  indexed by its position rather than drawn from a sequential stream; the set of reachable
  identifiers is the same.
- Identifiers.GenerateUniqueId: loops over a finite sequence of draws, because the source's loop is
  unbounded. Running out of draws is the `DrawsExhausted` error, which the source never raises.
- `mimetypes.guess_type` and `guess_extension` are a `MimeTypes` parameter. `unidecode`,
  `bleach.clean`, `prepare_content`, `url_for` and `repr(person)` are function parameters.
- `str.lower` is modelled on ASCII letters only, `\d` matches ASCII digits only, and `int()` accepts
  ASCII digits only (Python's also accepts other Unicode decimal digits, such as `"١٨٥٥"`).
- The file renames and deletions in the image store (`os.rename`, `os.remove`) are not modelled.
- The Whoosh engine (parsing, scoring, highlighting, the `limit`) is abstract. The index is the
  sequence of its stored documents, and the index schema configuration is not part of this model.
  `search_whoosh` opens the index before its empty-query short cut, so a missing index raises even
  for an empty query. The model's `searched` flag covers only the searcher, not opening the index.
- `handle_index` swallows any exception. It is an `available` flag: when false, the index is unchanged.
- The composition of the four steps in `before_insert_or_update` (api/models/models.py:272-279)
  is not one member. Each step is modelled and proved on its own.
- Pagination of `read_printers` is a plain offset and size. The page metadata and the per-person
  patent count query are not modelled.
- `LIKE` wildcards (`%`, `_`) inside the user's query are not interpreted. The query is matched as
  a literal substring, case-insensitively on ASCII.
- The `ORDER BY date_start` that `read_printers` adds with a date filter is not modelled. Rows keep
  their query order, so the rows that fall on a given page may differ from the source's.
- SQLite's type coercion of the image id in `get_image_details` is not modelled. An id is found when its decimal text equals the request parameter.
- The `is_circular_person_patent_relation` check of `on_model_change` is an opaque
  `Outcome`-valued parameter.
- The relation type is a plain string. Validating it against the relation-type enumeration is not modelled.
- Deleting a relation by primary key is a filter on the key.
- `dict` iteration over the grouped form is index order. This is the order in which the blocks are inserted.
- The `_id_dil` column of rows other than persons, patents and images (relations, cities,
  addresses) is not carried. For those rows the identifier hooks of api/models_old.py and
  app/models_archive/models.py are not modelled.
- The order in which SQLAlchemy runs the legacy layers' listeners for one row is not modelled.
  Each listener is modelled on its own, so `set_img_name` reads the identifier the image has at
  the moment it runs.
- Enumeration classes, `__repr__`, user accounts, addresses and the read-only routes that only
  serialise rows are not modelled.

## Findings

| source | as written | input that shows it | evidently intended | confidence | as-written member | corrected member |
|---|---|---|---|---|---|---|
| api/models/models.py:217-238 | the after-update index hook calls `add_document`, so the document written at insert time stays and the person has two documents | insert a person, then update it: two documents carry its `id_dil` (IndexHooks.InsertThenUpdateDuplicates) | replace the person's document (delete by `id_dil`, then add), keeping one document per person | medium, not executed | IndexHooks.UpdatePersonIndex | IndexHooks.UpdatePersonIndexReplacing |
| app/models_archive/models.py:148-150 | `set_id_dil` is registered on the unmapped `__abstract__` base without `propagate=True` (the other layers pass it), so no archive table runs it; were it run, `cls` would be the unmapped base and the query would raise | insert an archive person without `_id_dil`: no identifier is generated and the NOT NULL column refuses the row (ArchiveModels.ArchiveListenerNeverRuns) | register the listener with `propagate=True` and query the target's own class, generating a free identifier as the legacy layer does | medium, not executed | ArchiveModels.ArchiveInsertAsWritten | ArchiveModels.ArchiveCreateIdRefSpec |
| api/api_utils.py:33-34 | the final-comma pattern `,\s*$` runs once after the comma fix, so a doubled final separator leaves a comma | `"Auguste, ,"` gives `"Auguste, "`, which still ends with a comma and a space and normalises again to `"Auguste"` | the result ends with neither a comma nor whitespace, and normalising is idempotent (Firstnames.NormalizeFirstnamesFixedIdempotent) | high, not executed | Firstnames.NormalizeFirstnamesDoubledComma | Firstnames.NormalizeFirstnamesFixedDoubledComma |
