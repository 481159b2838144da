/**
  * The rows of the relational tables the consistency rules look at (api/models/models.py).
  * Only the columns some rule reads or writes are kept; a nullable column is an `Option`.
  */
module Records {
  import opened Wrappers

  datatype Person = Person(
    id: int,
    idDil: Option<string>,
    lastname: string,
    firstnames: Option<string>,
    personalInformation: Option<string>,
    professionalInformation: Option<string>,
    comment: Option<string>)

  datatype Patent = Patent(
    id: int,
    idDil: Option<string>,
    personId: int,
    cityLabel: Option<string>,
    cityId: Option<int>,
    dateStart: Option<string>,
    references: Option<string>,
    comment: Option<string>)

  /** `labelText` is the `label` column (`label` is a reserved word in Dafny). */
  datatype City = City(id: int, labelText: string)

  datatype Image = Image(
    id: int,
    idDil: Option<string>,
    labelText: string,
    referenceUrl: string,
    imgName: Option<string>,
    iiifUrl: Option<string>)

  /** A `patent_has_images` row; `id` is `None` until the row is inserted. */
  datatype PatentImage = PatentImage(id: Option<int>, patentId: int, imageId: int, isPinned: bool)

  /** A `patent_has_relations` row: `personId` holds the patent's relation to `personRelatedId`. */
  datatype PatentRelation = PatentRelation(id: int, patentId: int, personId: int, personRelatedId: int, relType: string)

  /** The object an ORM event fires for; rows of tables no rule inspects are `OtherEntity`. */
  datatype Entity =
    | PersonEntity(person: Person)
    | PatentEntity(patent: Patent)
    | ImageEntity(image: Image)
    | PatentImageEntity(relation: PatentImage)
    | OtherEntity(table: string)

  /** `x or ""` for a nullable string column. */
  function OrEmpty(x: Option<string>): string
  {
    if x.Some? then x.value else ""
  }

  /** `str(x)` for a nullable string column: `None` prints as "None". */
  function PyStr(x: Option<string>): string
  {
    if x.Some? then x.value else "None"
  }
}
