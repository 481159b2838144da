/**
  * The archived model layer, app/models_archive/models.py, which the application's entry
  * point still imports. Its identifier generator replaces punctuation over the whole
  * Base64 text, padding included, and only then cuts it to eight characters. Its insert
  * listener would only generate the identifier, with no person check and no markup
  * clean-up, but it is registered where no mapped table picks it up: the model keeps the
  * insert as written (`ArchiveInsertAsWritten`) and the listener as intended
  * (`ArchiveCreateIdRef`).
  * Its image name, `set_img_name` and single-pinned-image listeners are the same code as
  * in api/models_old.py and are modelled by `LegacyModels`.
  */
module ArchiveModels {
  import opened Wrappers
  import opened Text
  import opened Records
  import opened Identifiers
  import opened Consistency
  import opened LegacyModels

  /** `replace_punctuation_with_random`: the string is rebuilt character by character, each
      punctuation character replaced by the letter drawn for it. */
  method ReplacePunctuationWithRandom(s: string, pick: nat -> Letter) returns (modified: string)
    ensures modified == ReplacePunctuation(s, pick)
  {
    modified := "";
    for i := 0 to |s|
      invariant |modified| == i
      invariant forall j :: 0 <= j < i ==> modified[j] == if s[j] in Punctuation then pick(j) as char else s[j]
    {
      if s[i] in Punctuation {
        modified := modified + [pick(i) as char];
      } else {
        modified := modified + [s[i]];
      }
    }
  }

  /** The eight characters: the whole padded Base64 text with punctuation replaced, cut to
      eight. */
  function ArchiveRandomSuffix(d: Draw): string
  {
    Take(ReplacePunctuation(Base64UrlEncode(d.uuid), d.pick), 8)
  }

  /** `generate_random_uuid` of the archive: the provider segment is written when
      `len(provider) != 0`. */
  function ArchiveGenerateRandomUuid(prefix: string, provider: string, d: Draw): string
  {
    var finalId := ArchiveRandomSuffix(d);
    if |provider| == 0 then prefix + "_" + finalId else prefix + "_" + provider + "_" + finalId
  }

  /** Replacing before or after the cut is the same, and the first eight characters carry no
      padding: the archive's suffix is the current one for the same draw. */
  lemma ArchiveSuffixAgrees(d: Draw)
    ensures ArchiveRandomSuffix(d) == RandomSuffix(d)
    ensures |ArchiveRandomSuffix(d)| == 8 && AllAlnum(ArchiveRandomSuffix(d))
  {
    var full := Base64UrlEncode(d.uuid);
    Base64UrlHead(d.uuid);
    RStripKeepsHead(full, '=', 7);
    assert Take(RStripChar(full, '='), 8) == full[..8];
    var a := ArchiveRandomSuffix(d);
    var b := RandomSuffix(d);
    assert |a| == 8 == |b|;
    forall i | 0 <= i < 8 ensures a[i] == b[i] {
      assert a[i] == ReplacePunctuation(full, d.pick)[i];
    }
    RandomSuffixShape(d);
  }

  /** Given the same draw the archived generator and the current one produce the same
      identifier, so the archive's identifiers have the same shape: the prefix, the provider
      segment exactly when the provider is not empty, and eight letters or digits. */
  lemma ArchiveUuidAgrees(prefix: string, provider: string, d: Draw)
    ensures ArchiveGenerateRandomUuid(prefix, provider, d) == GenerateRandomUuid(prefix, provider, d)
    ensures var id := ArchiveGenerateRandomUuid(prefix, provider, d);
      && |id| == |prefix| + 1 + (if provider != "" then |provider| + 1 else 0) + 8
      && id[..|id| - 8] == prefix + "_" + (if provider != "" then provider + "_" else "")
      && AllAlnum(id[|id| - 8..])
  {
    ArchiveSuffixAgrees(d);
    GenerateRandomUuidShape(prefix, provider, d);
  }

  /** The archive's generator as the source runs it: the replacement loop, then the cut. */
  method GenerateArchiveUuid(prefix: string, provider: string, d: Draw) returns (finalId: string)
    ensures finalId == ArchiveGenerateRandomUuid(prefix, provider, d)
  {
    var encoded := Base64UrlEncode(d.uuid);
    var replaced := ReplacePunctuationWithRandom(encoded, d.pick);
    finalId := Take(replaced, 8);
    finalId := if |provider| == 0 then prefix + "_" + finalId else prefix + "_" + provider + "_" + finalId;
  }

  /** The candidates `generate_unique_id` draws in the archive: provider "dil". */
  function ArchiveCandidate(prefix: string): Draw -> string
  {
    d => ArchiveGenerateRandomUuid(prefix, "dil", d)
  }

  /** The generate-and-recheck loop settles on the same identifier with either generator. */
  lemma {:induction false} ArchiveFirstUnusedAgrees(prefix: string, taken: set<string>, draws: seq<Draw>)
    ensures FirstUnused(ArchiveCandidate(prefix), taken, draws) == FirstUnused(DilCandidate(prefix), taken, draws)
  {
    if draws != [] {
      ArchiveUuidAgrees(prefix, "dil", draws[0]);
      ArchiveFirstUnusedAgrees(prefix, taken, draws[1..]);
    }
  }

  /** An archive insert as the code is written: `set_id_dil` is registered on the unmapped
      `__abstract__` base without `propagate=True`, so SQLAlchemy never attaches it to a
      mapped table and the row reaches the database as it is; there the NOT NULL `_id_dil`
      column refuses a row without one. */
  function ArchiveInsertAsWritten(e: Entity): (r: Result<Entity>)
    ensures r.Success? <==> !CarriesId(e) || IdDil(e).Some?
    ensures r.Success? ==> r.value == e
    ensures r.Failure? ==> r.error == IntegrityError
  {
    if CarriesId(e) && IdDil(e).None? then Failure(IntegrityError) else Success(e)
  }

  /** The listener as written and as intended part ways on a row without an identifier:
      the written insert is refused, the intended one stores a free identifier. An empty
      identifier is stored empty as written, and replaced as intended. */
  lemma ArchiveListenerNeverRuns(e: Entity, taken: set<string>, draws: seq<Draw>)
    requires CarriesId(e) && IdMissing(IdDil(e))
    requires FirstUnused(ArchiveCandidate(ClassPrefix(e)), taken, draws).Some?
    ensures ArchiveCreateIdRef(e, taken, draws).Success?
    ensures ArchiveInsertAsWritten(e) != ArchiveCreateIdRef(e, taken, draws)
  {
    ArchiveCreateIdRefSpec(e, taken, draws);
    var r := ArchiveCreateIdRef(e, taken, draws);
    assert IdDil(r.value) != IdDil(e);
  }

  /** The archive's `before_insert_create_id_ref` as intended, the only `before_insert`
      listener of its abstract base: an identifier only when the row has none. */
  function ArchiveCreateIdRef(e: Entity, taken: set<string>, draws: seq<Draw>): (r: Result<Entity>)
    ensures r.Failure? ==> r.error == DrawsExhausted
  {
    if !CarriesId(e) || !IdMissing(IdDil(e)) then Success(e)
    else
      match FirstUnused(ArchiveCandidate(ClassPrefix(e)), taken, draws)
      case None => Failure(DrawsExhausted)
      case Some(id) => Success(WithIdDil(e, id))
  }

  /** The archive's insert listener does what the legacy identifier step does, so a
      generated identifier is absent from the table and of the class's shape, and a
      supplied one is kept. */
  lemma ArchiveCreateIdRefSpec(e: Entity, taken: set<string>, draws: seq<Draw>)
    ensures ArchiveCreateIdRef(e, taken, draws) == CreateIdRef(e, taken, draws)
    ensures var r := ArchiveCreateIdRef(e, taken, draws);
      && (!CarriesId(e) || !IdMissing(IdDil(e)) ==> r == Success(e))
      && (CarriesId(e) && IdMissing(IdDil(e)) && r.Success? ==>
            && CarriesId(r.value)
            && IdDil(r.value).Some?
            && IdDil(r.value).value !in taken
            && IsDilIdentifier(IdDil(r.value).value, ClassPrefix(e)))
  {
    if CarriesId(e) && IdMissing(IdDil(e)) {
      ArchiveFirstUnusedAgrees(ClassPrefix(e), taken, draws);
    }
    CreateIdRefSpec(e, taken, draws);
  }

  /** The listener's loop: candidates are drawn until one is free. */
  method ArchiveBeforeInsert(e: Entity, taken: set<string>, draws: seq<Draw>) returns (r: Result<Entity>)
    ensures r == ArchiveCreateIdRef(e, taken, draws)
  {
    if !CarriesId(e) || !IdMissing(IdDil(e)) {
      return Success(e);
    }
    var id, attempts := GenerateUniqueId(ArchiveCandidate(ClassPrefix(e)), taken, draws);
    if id.None? {
      return Failure(DrawsExhausted);
    }
    r := Success(WithIdDil(e, id.value));
  }

  /** With no person check and no markup step, the archive inserts a patent that names no
      person, which the legacy insert refuses, and leaves a person's texts as they are. */
  lemma ArchiveInsertSkipsChecks(e: Entity, persons: seq<Person>, taken: set<string>, draws: seq<Draw>)
    requires CarriesId(e) && !IdMissing(IdDil(e))
    ensures ArchiveCreateIdRef(e, taken, draws) == Success(e) && ArchiveInsertAsWritten(e) == Success(e)
    ensures e.PatentEntity? && (forall p :: p in persons ==> p.id != e.patent.personId) ==>
      LegacyModels.BeforeInsert(e, persons, taken, draws) == Failure(IntegrityError)
  {
  }
}
