/**
 The two Mongoose schemas of the API service, as validators.

 A field given to a model constructor may be absent (`None`). Mongoose's
 `required` check on a String path rejects an absent value and the empty
 string; an absent array path defaults to `[]`; optional String paths are
 stored as given.
 */
module Schemas {
  import opened Seqs

  /** Outcome of `document.validate()`: the document, or the failing required paths in schema order. */
  datatype Validated<T> = Valid(value: T) | Invalid(missing: seq<string>)

  /** Mongoose `required: true` on a String path. */
  predicate Present(v: Option<string>) {
    v.Some? && v.value != ""
  }

  /** An absent array path is stored as an empty array. */
  function ListOrEmpty(v: Option<seq<string>>): seq<string> {
    if v.Some? then v.value else []
  }

  /** A stored revision note. */
  datatype PdfNote = PdfNote(title: string, description: Option<string>, pdfUrl: string, tags: seq<string>)

  /** The fields handed to `new PdfNote({...})`. */
  datatype PdfNoteFields = PdfNoteFields(
    title: Option<string>,
    description: Option<string>,
    pdfUrl: Option<string>,
    tags: Option<seq<string>>)

  function MissingPdfNotePaths(f: PdfNoteFields): seq<string> {
    (if Present(f.title) then [] else ["title"]) + (if Present(f.pdfUrl) then [] else ["pdfUrl"])
  }

  /** Validation of a PdfNote: `title` and `pdfUrl` are required, `description` is optional. */
  function ValidatePdfNote(f: PdfNoteFields): (r: Validated<PdfNote>)
    ensures r.Valid? <==> Present(f.title) && Present(f.pdfUrl)
    ensures r.Valid? ==>
      && r.value.title == f.title.value
      && r.value.pdfUrl == f.pdfUrl.value
      && r.value.description == f.description
      && r.value.tags == ListOrEmpty(f.tags)
    ensures r.Invalid? ==>
      && ("title" in r.missing <==> !Present(f.title))
      && ("pdfUrl" in r.missing <==> !Present(f.pdfUrl))
  {
    var missing := MissingPdfNotePaths(f);
    if |missing| == 0 then
      Valid(PdfNote(f.title.value, f.description, f.pdfUrl.value, ListOrEmpty(f.tags)))
    else
      Invalid(missing)
  }

  /** The optional `description` never decides whether a note is accepted. */
  lemma PdfNoteDescriptionOptional(f: PdfNoteFields, d: Option<string>)
    ensures ValidatePdfNote(f).Valid? == ValidatePdfNote(f.(description := d)).Valid?
  {
  }

  /** A portfolio project as stored. */
  datatype Project = Project(
    name: string,
    description: string,
    detailedDescription: string,
    githubUrl: Option<string>,
    demoUrl: Option<string>,
    mediumUrl: Option<string>,
    imageUrl: string,
    tags: seq<string>,
    features: seq<string>,
    techStack: seq<string>,
    challenges: seq<string>,
    outcomes: seq<string>)

  /** The fields handed to `new Project({...})`. */
  datatype ProjectFields = ProjectFields(
    name: Option<string>,
    description: Option<string>,
    detailedDescription: Option<string>,
    githubUrl: Option<string>,
    demoUrl: Option<string>,
    mediumUrl: Option<string>,
    imageUrl: Option<string>,
    tags: Option<seq<string>>,
    features: Option<seq<string>>,
    techStack: Option<seq<string>>,
    challenges: Option<seq<string>>,
    outcomes: Option<seq<string>>)

  predicate ProjectRequiredPresent(f: ProjectFields) {
    Present(f.name) && Present(f.description) && Present(f.detailedDescription) && Present(f.imageUrl)
  }

  function MissingProjectPaths(f: ProjectFields): seq<string> {
    (if Present(f.name) then [] else ["name"])
    + (if Present(f.description) then [] else ["description"])
    + (if Present(f.detailedDescription) then [] else ["detailedDescription"])
    + (if Present(f.imageUrl) then [] else ["imageUrl"])
  }

  /**
   Validation of a Project: `name`, `description`, `detailedDescription` and
   `imageUrl` are required; the three links are optional; the five lists are
   ordered string arrays defaulting to `[]`.
   */
  function ValidateProject(f: ProjectFields): (r: Validated<Project>)
    ensures r.Valid? <==> ProjectRequiredPresent(f)
    ensures r.Valid? ==>
      && r.value.name == f.name.value
      && r.value.description == f.description.value
      && r.value.detailedDescription == f.detailedDescription.value
      && r.value.imageUrl == f.imageUrl.value
      && r.value.githubUrl == f.githubUrl
      && r.value.demoUrl == f.demoUrl
      && r.value.mediumUrl == f.mediumUrl
      && r.value.tags == ListOrEmpty(f.tags)
      && r.value.features == ListOrEmpty(f.features)
      && r.value.techStack == ListOrEmpty(f.techStack)
      && r.value.challenges == ListOrEmpty(f.challenges)
      && r.value.outcomes == ListOrEmpty(f.outcomes)
    ensures r.Invalid? ==>
      && ("name" in r.missing <==> !Present(f.name))
      && ("description" in r.missing <==> !Present(f.description))
      && ("detailedDescription" in r.missing <==> !Present(f.detailedDescription))
      && ("imageUrl" in r.missing <==> !Present(f.imageUrl))
  {
    var missing := MissingProjectPaths(f);
    if |missing| == 0 then
      Valid(Project(
        f.name.value, f.description.value, f.detailedDescription.value,
        f.githubUrl, f.demoUrl, f.mediumUrl, f.imageUrl.value,
        ListOrEmpty(f.tags), ListOrEmpty(f.features), ListOrEmpty(f.techStack),
        ListOrEmpty(f.challenges), ListOrEmpty(f.outcomes)))
    else
      Invalid(missing)
  }

  /** The optional links never decide whether a project is accepted. */
  lemma ProjectLinksOptional(f: ProjectFields, g: Option<string>, d: Option<string>, m: Option<string>)
    ensures ValidateProject(f).Valid? == ValidateProject(f.(githubUrl := g, demoUrl := d, mediumUrl := m)).Valid?
  {
  }

  /**
   A stored document: the generated id and the `timestamps: true` fields set
   on first save.
   */
  datatype Doc<T> = Doc(id: nat, body: T, createdAt: int, updatedAt: int)

  /** First save of a validated body: both timestamps are the save time. */
  function SaveNew<T>(id: nat, body: T, now: int): Doc<T> {
    Doc(id, body, now, now)
  }
}
