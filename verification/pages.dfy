/**
 The project index. The API-backed page and the older page backed by the
 fixture list run the same filter, tag toggle and tag list; the API-backed
 page also skips any project without an id when it renders the grid.
 */
module ProjectIndex {
  import opened Seqs
  import opened ListFilter
  import opened ProjectView

  /** A project as the filter sees it: name, description, tags. */
  function ProjectEntry(p: Project): Entry {
    Entry(p.name, p.description, p.tags)
  }

  /** The filter effect of the project list. */
  function FilterProjects(projects: seq<Project>, term: string, selected: seq<string>): (r: seq<Project>)
    ensures forall p :: p in r <==>
      && p in projects
      && (term == "" || MatchesText(p.name, term) || MatchesText(p.description, term)
          || exists i :: 0 <= i < |p.tags| && MatchesText(p.tags[i], term))
      && (|selected| == 0 || exists t :: t in selected && t in p.tags)
    ensures forall i :: 0 <= i < |r| ==> multiset(r)[r[i]] == multiset(projects)[r[i]]
    ensures IsSubsequence(r, projects)
    ensures term == "" && |selected| == 0 ==> r == projects
  {
    Filter(projects, ProjectEntry, term, selected)
  }

  /** `allTags` over the projects. */
  function ProjectTags(projects: seq<Project>): (r: seq<string>)
    ensures NoDup(r)
    ensures forall t :: t in r <==> exists i :: 0 <= i < |projects| && t in projects[i].tags
  {
    AllTags(projects, ProjectEntry)
  }

  /** The grid renders only projects whose id is set. */
  function VisibleProjects(filtered: seq<Project>): (r: seq<Project>)
    ensures forall p :: p in r <==> p in filtered && p.id != ""
    ensures forall i :: 0 <= i < |r| ==> multiset(r)[r[i]] == multiset(filtered)[r[i]]
    ensures IsSubsequence(r, filtered)
  {
    FilterByCounts(filtered, (p: Project) => p.id != "");
    FilterBy(filtered, (p: Project) => p.id != "")
  }

  /** The grid shows the filtered list unchanged exactly when every project in it has an id. */
  lemma VisibleProjectsAll(filtered: seq<Project>)
    ensures VisibleProjects(filtered) == filtered <==> forall p :: p in filtered ==> p.id != ""
  {
    FilterByAll(filtered, (p: Project) => p.id != "");
  }

  /** Selecting a further tag never hides a project that was listed. */
  lemma SelectingMoreTagsWidens(projects: seq<Project>, term: string, selected: seq<string>, t: string)
    requires |selected| > 0
    ensures IsSubsequence(FilterProjects(projects, term, selected), FilterProjects(projects, term, selected + [t]))
  {
    AddingTagWidens(projects, ProjectEntry, term, selected, t);
  }

  /**
   A project whose name contains the term, in any letter case, is listed
   whenever it carries a selected tag (or none is selected).
   */
  lemma NameMatchListed(projects: seq<Project>, term: string, selected: seq<string>, p: Project)
    requires p in projects && MatchesText(p.name, term)
    requires |selected| == 0 || exists t :: t in selected && t in p.tags
    ensures p in FilterProjects(projects, term, selected)
  {
  }
}

/**
 The PDF viewer's URL rule: a URL that already starts with `http` is used as
 is, any other is taken relative to the API server.
 */
module PdfViewer {
  import opened Text

  const ApiOrigin: string := "http://localhost:3001"
  const Scheme: string := "http"

  function ResolvePdfUrl(url: string): (r: string)
    ensures StartsWith(r, Scheme)
    ensures StartsWith(url, Scheme) ==> r == url
    ensures !StartsWith(url, Scheme) ==> r == ApiOrigin + url
  {
    if StartsWith(url, Scheme) then url
    else
      assert (ApiOrigin + url)[..|Scheme|] == ApiOrigin[..|Scheme|];
      ApiOrigin + url
  }

  /** Resolving an already resolved URL changes nothing. */
  lemma ResolveIdempotent(url: string)
    ensures ResolvePdfUrl(ResolvePdfUrl(url)) == ResolvePdfUrl(url)
  {
  }

  /** Every resolved URL ends with the URL it was given. */
  lemma ResolveKeepsPath(url: string)
    ensures EndsWith(ResolvePdfUrl(url), url)
  {
    var r := ResolvePdfUrl(url);
    assert r[|r| - |url|..] == url;
  }
}

/**
 The revision-notes page: the same filter over PDF metadata, and the viewer
 URL a click builds from the stored file name.
 */
module RevisionNotesPage {
  import opened Seqs
  import opened Text
  import opened ListFilter
  import opened Uploads
  import opened PdfViewer

  /** One entry of the PDF metadata list. */
  datatype PdfMetadata = PdfMetadata(id: string, title: string, description: string, filename: string, tags: seq<string>)

  /** The PDF opened in the viewer: the metadata and its absolute URL. */
  datatype SelectedPdf = SelectedPdf(meta: PdfMetadata, pdfUrl: string)

  function PdfEntry(pdf: PdfMetadata): Entry {
    Entry(pdf.title, pdf.description, pdf.tags)
  }

  /** The filter effect of the PDF list. */
  function FilterPdfs(pdfs: seq<PdfMetadata>, term: string, selected: seq<string>): (r: seq<PdfMetadata>)
    ensures forall p :: p in r <==>
      && p in pdfs
      && (term == "" || MatchesText(p.title, term) || MatchesText(p.description, term)
          || exists i :: 0 <= i < |p.tags| && MatchesText(p.tags[i], term))
      && (|selected| == 0 || exists t :: t in selected && t in p.tags)
    ensures forall i :: 0 <= i < |r| ==> multiset(r)[r[i]] == multiset(pdfs)[r[i]]
    ensures IsSubsequence(r, pdfs)
    ensures term == "" && |selected| == 0 ==> r == pdfs
  {
    Filter(pdfs, PdfEntry, term, selected)
  }

  /** `allTags` over the PDFs. */
  function PdfTags(pdfs: seq<PdfMetadata>): (r: seq<string>)
    ensures NoDup(r)
    ensures forall t :: t in r <==> exists i :: 0 <= i < |pdfs| && t in pdfs[i].tags
  {
    AllTags(pdfs, PdfEntry)
  }

  /** `handlePdfClick`: the metadata unchanged, with the file's URL on the API server. */
  function HandlePdfClick(pdf: PdfMetadata): (s: SelectedPdf)
    ensures s.meta == pdf
    ensures StartsWith(s.pdfUrl, ApiOrigin + UrlPrefix) && EndsWith(s.pdfUrl, pdf.filename)
  {
    var url := "http://localhost:3001/uploads/pdfs/" + pdf.filename;
    assert url[..|ApiOrigin + UrlPrefix|] == ApiOrigin + UrlPrefix;
    assert url[|url| - |pdf.filename|..] == pdf.filename;
    SelectedPdf(pdf, url)
  }

  /**
   The page and the viewer agree: the URL a click builds is the viewer's
   resolution of the URL the server stores for that file.
   */
  lemma ClickAgreesWithViewer(pdf: PdfMetadata)
    ensures HandlePdfClick(pdf).pdfUrl == ResolvePdfUrl(PdfUrlOf(pdf.filename))
  {
    var rel := PdfUrlOf(pdf.filename);
    assert rel[0] == '/';
    assert !StartsWith(rel, Scheme);
    assert ApiOrigin + rel == "http://localhost:3001/uploads/pdfs/" + pdf.filename;
  }
}
