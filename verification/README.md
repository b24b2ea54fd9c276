# DevOps-Canvas core, modelled in Dafny

DevOps-Canvas is a portfolio site: an Express/Mongoose API that stores
projects and PDF revision notes, and a React client that lists, filters and
edits them. This project models the parts of it that are rules rather than
plumbing, as pure Dafny functions over sequences and strings:

- **Stored PDF naming and reconciliation** (`uploads.dfy`, `reconcile.dfy`).
  - An upload is stored as `<Date.now()>-<original name>` and served under `/uploads/pdfs/`.
  - The reconciliation pass `initializeExistingPdfs` scans a directory listing
    against the stored notes. It registers every `.pdf` file that has no note
    with that URL, under a title with the timestamp prefix and the `.pdf` extension stripped.
- **The PDF-note controller** (`pdf_notes_api.dfy`).
  - `getPdfNotes`, `getPdfNote` and `uploadPdfNote` over an in-memory store of documents.
  - The upload route writes the file to disk before the controller runs.
  - A server-level model joins the uploads directory and the note collection.
    It relates uploads to later reconciliation passes.
- **The two Mongoose schemas as validators** (`schemas.dfy`).
  - `required` on a String path means present and non-empty.
  - Absent arrays default to `[]`.
- **Client list filtering** (`list_filter.dfy`, `pages.dfy`). Shared by the
  two project index pages and the revision-notes page:
  - a case-insensitive search on name or title, description and tags, AND-ed
    with an OR over the selected tags;
  - the tag toggle;
  - the de-duplicated tag list;
  - the missing-id render filter;
  - the viewer URL a PDF click builds.
- **Form list editors** (`form_lists.dfy`, `project_forms.dfy`).
  - De-duplicating, trimming tag and tech-stack inputs.
  - Index-addressed feature, challenge and outcome rows.
  - The edit form's load defaults and submit blank-stripping.
  - The add form's initial state.
- **Small mappers** (`project_view.dfy`, `add_pdf.dfy`, `pages.dfy`).
  - API-to-view project mapping.
  - Comma-separated tag parsing on the add-PDF page and its upload handler.
  - Project-card tag truncation and links.
  - The PDF viewer's URL resolution.

The modelling choices:

- The clock (`Date.now()`) is a `nat` parameter.
- The directory listing is `Option<seq<string>>`, with `None` for a missing directory.
- The document store is a sequence of documents with `nat` ids.
- Strings are `seq<char>`, with ASCII lower-casing and ASCII white space.

Three details of the code shape the model:

- `server/src/utils/initPdfs.ts` exports `initializeExistingPdfs`, but
  `server/src/index.ts` never calls it, so nothing runs the pass at start-up.
  It is modelled as a standalone function, and `PdfNotesApi.ReconcileServer`
  applies it to a server state.
- In `initializeExistingPdfs` the `try` encloses the whole loop, so the first
  failed save ends the pass and is not retried for later files; the notes
  saved before it stay. A file whose derived title is empty (such as
  `1700000000000-.pdf`) makes that save fail. `Reconcile.Scan` returns this
  as its `stopped` flag.
- The API-backed index page stores the API records as they arrive,
  without calling `mapApiProjectToProject`, and then renders only records
  with an `id`. Whether those records carry `id` or only `_id` depends on the
  projects controller, which is not part of this model. The model applies the
  id filter to view records.

## Model

| member | source | states |
|---|---|---|
| `Uploads.StoredName` | server/src/routes/pdfNotes.ts:14-16 | The stored file name starts with the decimal timestamp and a hyphen and ends with the client's file name. |
| `Uploads.StoredNameInjective` | server/src/routes/pdfNotes.ts:15 | Two uploads get the same stored name only with the same timestamp and the same original name. |
| `Uploads.StoredNameKeepsPdf` | server/src/routes/pdfNotes.ts:15 | A `.pdf` original gives a stored name that the reconciliation filter accepts. |
| `Uploads.StoredNameTimestampPrefix` | server/src/routes/pdfNotes.ts:15 | The timestamp digits and hyphen are exactly what the `^\d+-` strip removes from a stored name, leaving the original name. |
| `Text.ParseDecimalOfDecimal` | server/src/routes/pdfNotes.ts:15 | The decimal rendering of the timestamp reads back as the same number. |
| `Text.Decimal` | server/src/routes/pdfNotes.ts:15 | The decimal rendering of a timestamp is non-empty, all digits, with no leading zero. |
| `Uploads.PdfUrlOf` | server/src/utils/initPdfs.ts:29 | A file's URL is `/uploads/pdfs/` followed by the file name. |
| `Uploads.PdfUrlInjective` | server/src/utils/initPdfs.ts:32-34 | Different file names have different URLs, so the URL lookup identifies one file. |
| `Uploads.LeadingDigits` | server/src/utils/initPdfs.ts:36 | The length of the maximal digit run at the start of a name. |
| `Uploads.StripTimestamp` | server/src/utils/initPdfs.ts:36 | When a non-empty run of digits followed by `-` starts the name, exactly that prefix is removed; otherwise the name is unchanged. |
| `Uploads.StripPdfExtension` | server/src/utils/initPdfs.ts:36 | One trailing `.pdf` in any letter case is removed; other names are unchanged. |
| `Uploads.TitleOf` | server/src/utils/initPdfs.ts:36 | The title is the name with a leading part cut off and then at most four trailing characters cut off. |
| `Uploads.TitleOfTimestamped` | server/src/utils/initPdfs.ts:36 | Any non-empty run of digits, a hyphen, a base name and `.pdf` give the title that base name. |
| `Uploads.TitleOfStoredName` | server/src/utils/initPdfs.ts:36 | Naming round trip: the title derived from a stored name is the original name minus one `.pdf`, even when the original itself starts with digits and a hyphen. |
| `Uploads.TitleExample` | server/src/utils/initPdfs.ts:35-36 | `1700000000000-Notes.pdf` is titled `Notes`. |
| `Reconcile.AutoFieldsValidation` | server/src/utils/initPdfs.ts:39-46 | The auto-imported note (fixed description, tags `["auto-imported"]`) saves exactly when its derived title is non-empty. |
| `Reconcile.Scan` | server/src/utils/initPdfs.ts:28-51 | Every created note is the auto note of a listed file. None has a URL already stored. Created URLs are pairwise distinct. A pass that did not stop leaves every listed file registered. |
| `Reconcile.InitializeExistingPdfs` | server/src/utils/initPdfs.ts:5-57 | A missing directory registers nothing. Only names whose lower-cased form ends in `.pdf` produce notes. Stored notes are never duplicated. |
| `Reconcile.NoPdfsNoNotes` | server/src/utils/initPdfs.ts:17-23 | A listing without PDF names registers nothing. |
| `Reconcile.ScanIdempotent` | server/src/utils/initPdfs.ts:28-51 | Scanning the same files again, against the notes the first scan left, creates nothing. |
| `Reconcile.InitializeIdempotent` | server/src/utils/initPdfs.ts:10-51 | The whole pass, rerun over an unchanged directory, creates nothing. |
| `Reconcile.ScanStopsAtEmptyTitle` | server/src/utils/initPdfs.ts:36-56 | A pass that stopped stopped at an unregistered file with an empty title, and every note it created comes from an earlier file. |
| `Schemas.ValidatePdfNote` | server/src/models/PdfNote.ts:10-15 | A note is valid iff title and pdfUrl are present and non-empty. On success the fields are kept and absent tags become `[]`. On failure each missing required path is reported. |
| `Schemas.PdfNoteDescriptionOptional` | server/src/models/PdfNote.ts:12 | The description never decides acceptance. |
| `Schemas.ValidateProject` | server/src/models/Project.ts:18-31 | A project is valid iff name, description, detailedDescription and imageUrl are present. Links stay optional and absent lists become `[]`. Failures name each missing path. |
| `Schemas.ProjectLinksOptional` | server/src/models/Project.ts:22-24 | The three links never decide acceptance. |
| `PdfNotesApi.FreshId` | server/src/controllers/pdfController.ts:34 | A new document's id differs from every stored id. |
| `PdfNotesApi.FindById` | server/src/controllers/pdfController.ts:15 | Finds a document iff one has the id, and the one found is stored with that id. |
| `PdfNotesApi.GetPdfNote` | server/src/controllers/pdfController.ts:13-21 | 200 with the stored note iff the id is known; otherwise 404 with `PDF note not found`. |
| `PdfNotesApi.GetAgreesWithList` | server/src/controllers/pdfController.ts:4-11 | The list is returned with 200 and contains exactly the notes the single-note endpoint finds. |
| `PdfNotesApi.UploadPdfNote` | server/src/controllers/pdfController.ts:23-39 | 201 iff a file was stored, the title is non-empty and the tags decode. On 201 the store gains exactly the new document, with a fresh id, the given fields, the file's URL, the decoded tags (absent means `[]`) and both timestamps set to the save time. Otherwise 400 with `Failed to upload PDF note` and the store unchanged. |
| `PdfNotesApi.UploadThenRead` | server/src/controllers/pdfController.ts:4-21 | A saved upload is found by its id and is listed after all earlier notes. |
| `PdfNotesApi.FindAppendFresh` | server/src/controllers/pdfController.ts:15 | A document appended under a fresh id is the one found by that id. |
| `PdfNotesApi.HandleUpload` | server/src/routes/pdfNotes.ts:23 | The file is written under its time-stamped name before the controller runs, also when the controller then rejects. Without a file nothing is written and the answer is 400. |
| `PdfNotesApi.SaveAll` | server/src/utils/initPdfs.ts:46 | Saving the registered notes keeps every stored document and appends exactly those notes. |
| `PdfNotesApi.ReconcileServer` | server/src/utils/initPdfs.ts:28-51 | A pass leaves the directory alone and only appends notes. |
| `PdfNotesApi.ReconcileServerIdempotent` | server/src/utils/initPdfs.ts:32-34 | A second pass over an unchanged server changes nothing. |
| `PdfNotesApi.BodiesAppend` | server/src/utils/initPdfs.ts:32 | The notes seen by the lookup after a save are the earlier notes plus the saved one. |
| `PdfNotesApi.UploadNotDuplicated` | server/src/controllers/pdfController.ts:26 | An accepted upload records the URL the reconciliation pass computes for its file, so a later pass does not register the file again. |
| `PdfNotesApi.UploadTagsDecoded` | server/src/controllers/pdfController.ts:32 | Absent tags are saved as `[]` and a decoded list as that list; a tags field that does not decode answers 400 and leaves the store unchanged. |
| `PdfNotesApi.RejectedUploadRecovered` | server/src/utils/initPdfs.ts:28-51 | A rejected PDF upload leaves its file behind. A later pass that reaches the file in the listing registers it with title `StripPdfExtension(original)`, the auto description and the auto tag. |
| `PdfNotesApi.UntitledUploadRecovered` | server/src/controllers/pdfController.ts:28-38 | An upload of `a.pdf` without a title is rejected, and the next pass over the directory registers the orphaned file under the title `a`. |
| `Reconcile.ScanReaches` | server/src/utils/initPdfs.ts:28-51 | A file with a non-empty title is registered once the pass has run, when every file listed before it has a title or is registered already. |
| `Text.ContainsIff` | client/src/pages/Index.tsx:53 | The recursive substring test holds iff the needle occurs at some offset. |
| `Text.Lower` | client/src/pages/Index.tsx:53 | Lower-casing keeps the length, maps each letter on its own and leaves no upper-case letter. |
| `ListFilter.Filter` | client/src/pages/Index.tsx:49-67 | An item is kept iff it passes the non-empty search and the non-empty tag selection. The result is an ordered subsequence of the input, and a kept item keeps all its copies. An empty term with no tags returns the input unchanged. |
| `ListFilter.FilterIsOnePass` | client/src/pages/Index.tsx:50-64 | The two successive filters equal one filter by the conjunction of both predicates. |
| `ListFilter.AddingTagWidens` | client/src/pages/Index.tsx:60-64 | Adding a tag to a non-empty selection never removes a listed item. |
| `ListFilter.SearchIgnoresTermCase` | client/src/pages/Index.tsx:52-58 | The search gives the same answer for a term and its lower-cased form. |
| `ListFilter.ToggleTag` | client/src/pages/Index.tsx:69-75 | The tag's membership flips, other tags are unaffected, and a duplicate-free selection stays duplicate-free. |
| `ListFilter.ToggleTwiceRestores` | client/src/pages/RevisionNotes.tsx:63-67 | Toggling an unselected tag twice restores the exact selection. |
| `ListFilter.AllTags` | client/src/pages/Index.tsx:46 | The tag list is duplicate-free, has exactly the tags of the items, and is in first-occurrence order. |
| `ProjectIndex.FilterProjects` | src/pages/Index.tsx:39-57 | A project is listed iff the term (ignoring case) occurs in its name, description or a tag, and it carries a selected tag. The list keeps order and every copy of a listed project, and an empty filter keeps every project. |
| `ProjectIndex.ProjectTags` | src/pages/Index.tsx:36 | The project tag list is duplicate-free with exactly the projects' tags. |
| `ProjectIndex.SelectingMoreTagsWidens` | src/pages/Index.tsx:50-55 | Selecting a further tag keeps every listed project. |
| `ProjectIndex.NameMatchListed` | src/pages/Index.tsx:42-48 | A project whose name contains the term in any letter case is listed when its tags allow. |
| `ProjectIndex.VisibleProjects` | client/src/pages/Index.tsx:191-196 | Exactly the projects with an id are rendered, in order, each with all its copies. |
| `ProjectIndex.VisibleProjectsAll` | client/src/pages/Index.tsx:191-196 | The rendered list is the filtered list unchanged iff every project in it has an id. |
| `RevisionNotesPage.FilterPdfs` | client/src/pages/RevisionNotes.tsx:43-61 | A PDF is listed iff the term (ignoring case) occurs in its title, description or a tag, and it carries a selected tag. The list keeps order and every copy of a listed PDF, and an empty filter keeps every PDF. |
| `RevisionNotesPage.PdfTags` | client/src/pages/RevisionNotes.tsx:41 | The PDF tag list is duplicate-free with exactly the PDFs' tags. |
| `RevisionNotesPage.HandlePdfClick` | client/src/pages/RevisionNotes.tsx:69-74 | The selection keeps the metadata unchanged and its URL is the API origin, `/uploads/pdfs/`, then the file name. |
| `RevisionNotesPage.ClickAgreesWithViewer` | client/src/pages/RevisionNotes.tsx:72 | The click URL is the viewer's resolution of the URL the server stores for that file. |
| `PdfViewer.ResolvePdfUrl` | client/src/components/PdfViewer.tsx:10-12 | The result starts with `http`. An `http` URL is returned as is; any other gets `http://localhost:3001` prepended. |
| `PdfViewer.ResolveIdempotent` | client/src/components/PdfViewer.tsx:10-12 | Resolving twice equals resolving once. |
| `PdfViewer.ResolveKeepsPath` | client/src/components/PdfViewer.tsx:12 | The resolved URL ends with the given URL. |
| `FormLists.AddUnique` | client/src/pages/EditProject.tsx:61-66 | The trimmed input is appended and the box cleared iff it is non-empty and new. Otherwise nothing changes. Duplicate-freedom and cleanliness are kept. |
| `FormLists.AddUniqueTwice` | client/src/pages/EditProject.tsx:79-84 | Adding the same text twice adds it once. |
| `Seqs.FilterByCounts` | client/src/pages/EditProject.tsx:109 | `filter` keeps every copy of an element its predicate accepts and drops every copy of one it rejects. |
| `Seqs.RemoveAll` | client/src/pages/EditProject.tsx:67-69 | Removing a value drops all its copies, keeps every other value with all its copies, keeps the order, and keeps a duplicate-free list duplicate-free. |
| `FormLists.AddThenRemove` | client/src/pages/EditProject.tsx:67-69 | Removing a value just added restores the list. |
| `FormLists.ListActionsKeepInvariant` | client/src/pages/EditProject.tsx:85-87 | Any sequence of adds and removes keeps the list duplicate-free, trimmed and without empty entries. |
| `FormLists.AddRow` | client/src/pages/EditProject.tsx:70-72 | One empty row is appended and the others are kept. |
| `FormLists.UpdateAt` | client/src/pages/EditProject.tsx:73-75 | Only the row at the index changes and the length is kept; an index outside the list changes nothing. |
| `FormLists.RemoveAt` | client/src/pages/EditProject.tsx:76-78 | Exactly the row at the index is dropped, the others keep their order; an index outside the list changes nothing. |
| `FormLists.RemoveAtIsPositionFilter` | client/src/pages/EditProject.tsx:94-96 | The closed form equals the position filter `filter((_, i) => i !== index)` for every index. |
| `FormLists.ApplyRowAction` | client/src/pages/EditProject.tsx:230 | With the remove button shown only above one row, a non-empty row list stays non-empty after one edit. |
| `FormLists.RowsNeverEmpty` | client/src/pages/EditProject.tsx:226-258 | A non-empty row list stays non-empty under any sequence of edits. |
| `FormLists.LoadRows` | client/src/pages/EditProject.tsx:48-51 | A missing or empty list loads as `[""]`; a non-empty one as it is. |
| `FormLists.StripBlank` | client/src/pages/EditProject.tsx:109 | Exactly the rows whose trim is non-empty are kept, in order, each with all its copies. |
| `FormLists.StripBlankIdempotent` | client/src/pages/EditProject.tsx:113-114 | Stripping twice is stripping once. |
| `FormLists.StripBlankKeepsFilled` | client/src/pages/EditProject.tsx:115 | A list without blank rows is sent as it is. |
| `FormLists.LoadThenStrip` | client/src/pages/EditProject.tsx:50 | The placeholder row of a loaded empty list is dropped again on submit. |
| `EditProjectPage.Load` | client/src/pages/EditProject.tsx:36-54 | Every text field and the documentation take the fetched value or `""`. Each row list takes the fetched list when it is non-empty and `[""]` otherwise, so it is never empty. Tags and tech stack take the fetched lists or `[]`, and the input boxes keep their text. |
| `EditProjectPage.Submit` | client/src/pages/EditProject.tsx:107-118 | Features, challenges and outcomes lose exactly their blank rows, in order, and keep every copy of a filled row; tags, tech stack and text fields are sent unchanged. |
| `EditProjectPage.LoadSubmitRoundTrip` | client/src/pages/EditProject.tsx:36-118 | Saving an unedited project without blank rows sends back what was fetched, with missing fields as their defaults. |
| `EditProjectPage.SubmitStable` | client/src/pages/EditProject.tsx:109-117 | Submitting the submitted rows again sends the same request. |
| `AddProjectPage.FormStaysGood` | src/pages/AddProject.tsx:24-56 | From the initial state, any sequence of tag and feature edits leaves at least one feature row and duplicate-free, trimmed, non-empty tags. |
| `AddProjectPage.RunKeepsGood` | src/pages/AddProject.tsx:236 | Every edit sequence preserves that invariant from any state that has it. |
| `AddPdfPage.Split` | client/src/pages/AddPDF.tsx:26 | Splitting on commas gives one more piece than there are commas. No piece contains a comma, and every character comes from the input. |
| `AddPdfPage.SplitJoin` | client/src/pages/AddPDF.tsx:26 | Joining the pieces with commas gives the input back. |
| `AddPdfPage.TrimAllPadded` | client/src/pages/AddPDF.tsx:26 | Each trimmed piece is the piece with its surrounding white space removed, and has none left of its own. |
| `AddPdfPage.ParseTags` | client/src/pages/AddPDF.tsx:26 | A text is a tag iff it is non-empty and equals some comma-separated piece after trimming; each such text occurs as often as among the trimmed pieces. Tags keep the left-to-right order of the pieces and number at most one more than the commas. |
| `AddPdfPage.ParseTagsText` | client/src/pages/AddPDF.tsx:26 | A list of non-empty, trimmed, comma-free tags, written with commas between them, parses back to the same list. |
| `AddPdfPage.BlankTagsField` | client/src/pages/AddPDF.tsx:26 | A field of only commas and white space gives no tags. |
| `AddPdfPage.HandleUpload` | client/src/pages/AddPDF.tsx:22-41 | Without a file nothing is sent and nothing changes. Otherwise the request carries the parsed tags; a successful upload clears the form and a failed one leaves it. |
| `AddPdfPage.FieldsDecoded` | client/src/services/api.ts:108-115 | The form sends the title as it is, the description only when non-empty, and tags that the server decodes back to the same list. |
| `AddPdfPage.RequestAccepted` | server/src/controllers/pdfController.ts:23-39 | Any request the client service sends is accepted iff its title is non-empty. The stored note then carries the request's tags, and no description when the request's description is empty. |
| `AddPdfPage.PageUploadAccepted` | client/src/services/api.ts:109-114 | An upload sent by the page is accepted by the server iff its title is non-empty. The stored note carries the parsed tags, and no description when it was left empty. |
| `ProjectView.MapApiProjectToProject` | src/utils/projectMapper.ts:4-21 | The id is `_id`. All other fields are copied, except that an absent tech stack falls back to the tags and absent challenges and outcomes become `[]`. |
| `ProjectView.MapRoundTrip` | src/utils/projectMapper.ts:5-20 | With all lists present the mapping loses nothing. |
| `ProjectView.MapAgreesOnlyWithDefaults` | src/utils/projectMapper.ts:7-19 | With all lists present, two API records map alike iff they differ at most in their timestamps. |
| `ProjectView.EmptyTechStackKept` | src/utils/projectMapper.ts:17 | A present empty tech stack stays empty, since `[]` is truthy; only an absent one takes the tags. |
| `ProjectCard.ShownTags` | src/components/ProjectCard.tsx:46 | The badges are the first min(3, n) tags, in order. |
| `ProjectCard.Overflow` | src/components/ProjectCard.tsx:55-58 | The overflow badge appears iff there are more than three tags, and badges plus overflow count all tags. |
| `ProjectCard.CardAccountsForAllTags` | src/components/ProjectCard.tsx:46-58 | The badges are a prefix of the tags, and together with the overflow count they account for every tag. |
| `ProjectCard.DetailLink` | src/components/ProjectCard.tsx:70 | The details link starts with `/project/`, and what follows it is exactly the id. |
| `ProjectCard.DetailLinkInjective` | src/components/ProjectCard.tsx:70 | Two projects share a details link iff they share the id. |
| `ProjectCard.CardLinks` | src/components/ProjectCard.tsx:75-109 | The card shows the GitHub, demo and Medium links exactly when their URL is present and non-empty, each pointing at its URL. |
| `ProjectCard.CardOfApiProject` | src/components/ProjectCard.tsx:46-109 | The card of an API record shows the record's leading tags as badges, links its details to the record's `_id` and shows exactly its non-empty external links. |

## Left out

- File system calls (`existsSync`, `mkdirSync`, `readdirSync`), multer's disk writes, Mongoose persistence and Express wiring: the directory is a listing value, the store a sequence, and the upload's stored name is a parameter of the route model.
- Store and file-system failures that answer 500 (`Failed to fetch PDF notes`, `Failed to fetch PDF note`), and the `CastError` of a malformed id: the model's ids are numbers and the store does not fail.
- `JSON.parse` of the tags field and `JSON.stringify` on the client: tags arrive decoded, with a parse failure as the `TagsMalformed` input.
- The HTTP client services and the react-query hooks. They are fetch plumbing and a library cache. The project delete invalidates only the `['projects']` key, not `['project', id]`.
- The projects controller, which is not part of this model: project create, update and delete beyond schema validation are not modelled.
- JSX rendering, styling, the typing animation, the navigation bar, routes, the project detail layout and the simulated submit of the add-project page.
- The fixture list of projects.
- Request races and last-write-wins updates.
- Console logging, and the swallowed error at the end of the reconciliation pass.
- `PdfNotesApi.GetPdfNotes`: carries no contract of its own; its promise, that every stored note is listed, is stated by `PdfNotesApi.GetAgreesWithList` and `PdfNotesApi.UploadThenRead`.
- `Text.Lower`: ASCII letters only; Unicode case mapping is not modelled.
- `Text.Trim`: ASCII white space only; Unicode white space and line terminators beyond ASCII are not modelled.
- `PdfNotesApi.FreshId`: generated ids are `max + 1` numbers, not ObjectIds; only freshness is relied on.
- `Uploads.StoredName`: `Date.now()` is a non-negative whole number of milliseconds; clock values before the epoch are not modelled.
- `PdfNotesApi.RejectedUploadRecovered`: assumes no note already has the orphan's URL, the original name leaves a non-empty title, and every PDF listed before the orphan has a non-empty title or is registered already. The last is enough for the pass to reach the orphan but not necessary: an earlier empty-title file that is registered already does not stop the pass and is also allowed.
- `Uploads.TitleOf`: its own contract states only the shape of the title (a suffix of the name, then at most `.pdf` cut off); which prefix and suffix are removed is stated by `Uploads.StripTimestamp`, `Uploads.StripPdfExtension`, `Uploads.TitleOfStoredName` and `Uploads.TitleOfTimestamped`.
- `AddPdfPage.HandleUpload`: the reset of the file input element and the mutation's cache invalidation are not modelled.
