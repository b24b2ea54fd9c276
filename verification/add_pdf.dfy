/**
 The add-PDF page: the comma-separated tag field parsed into a tag list, and
 the upload handler, which does nothing without a chosen file and clears
 the form after a successful upload.
 */
module AddPdfPage {
  import opened Seqs
  import opened Text
  import opened Schemas
  import PdfNotesApi
  import Uploads

  /** Number of occurrences of `c` in `s`. */
  function Count(s: string, c: char): nat
    decreases |s|
  {
    if |s| == 0 then 0 else (if s[0] == c then 1 else 0) + Count(s[1..], c)
  }

  /** `s.split(sep)` for a one-character separator. */
  function Split(s: string, sep: char): (r: seq<string>)
    ensures |r| == Count(s, sep) + 1
    ensures forall i, k :: 0 <= i < |r| && 0 <= k < |r[i]| ==> r[i][k] != sep && r[i][k] in s
    decreases |s|
  {
    if |s| == 0 then [""]
    else
      var rest := Split(s[1..], sep);
      if s[0] == sep then
        var r := [""] + rest;
        assert forall i :: 1 <= i < |r| ==> r[i] == rest[i - 1];
        r
      else
        var r := [[s[0]] + rest[0]] + rest[1..];
        assert forall i :: 1 <= i < |r| ==> r[i] == rest[i];
        r
  }

  /** `pieces.join(sep)`. */
  function Join(pieces: seq<string>, sep: char): string
    requires |pieces| > 0
    decreases |pieces|
  {
    if |pieces| == 1 then pieces[0] else pieces[0] + [sep] + Join(pieces[1..], sep)
  }

  /** Splitting loses nothing: joining the pieces gives the input back. */
  lemma {:induction false} SplitJoin(s: string, sep: char)
    ensures Join(Split(s, sep), sep) == s
    decreases |s|
  {
    if |s| > 0 {
      var rest := Split(s[1..], sep);
      SplitJoin(s[1..], sep);
      if s[0] == sep {
        assert Split(s, sep)[1..] == rest;
        assert s == [sep] + s[1..];
      } else {
        var r := Split(s, sep);
        assert r[1..] == rest[1..];
        if |rest| == 1 {
          assert s == [s[0]] + rest[0];
        } else {
          assert Join(r, sep) == [s[0]] + rest[0] + [sep] + Join(rest[1..], sep);
          assert s == [s[0]] + s[1..];
        }
      }
    }
  }

  /** `pieces.map(t => t.trim())`. */
  function TrimAll(pieces: seq<string>): (r: seq<string>)
    ensures |r| == |pieces| && forall i :: 0 <= i < |r| ==> r[i] == Trim(pieces[i])
  {
    seq(|pieces|, i requires 0 <= i < |pieces| => Trim(pieces[i]))
  }

  /** `t` has no outer white space, and `piece` is `t` with white space around. */
  ghost predicate TrimmedFrom(piece: string, t: string) {
    Trim(t) == t && exists k :: PaddedBy(piece, k, t)
  }

  /** Each trimmed piece has no outer white space left, and the piece it came from is it padded. */
  lemma TrimAllPadded(pieces: seq<string>)
    ensures forall i :: 0 <= i < |pieces| ==> TrimmedFrom(pieces[i], TrimAll(pieces)[i])
  {
    var r := TrimAll(pieces);
    forall i | 0 <= i < |pieces|
      ensures TrimmedFrom(pieces[i], r[i])
    {
      TrimIdempotent(pieces[i]);
    }
  }

  /**
   `tags.split(',').map(t => t.trim()).filter(Boolean)`: exactly the non-empty
   trimmed pieces, each as often as it occurs, in order.
   */
  function ParseTags(s: string): (r: seq<string>)
    ensures forall t :: t in r <==> t != "" && t in TrimAll(Split(s, ','))
    ensures forall i :: 0 <= i < |r| ==> multiset(r)[r[i]] == multiset(TrimAll(Split(s, ',')))[r[i]]
    ensures forall t :: t in r ==> Trim(t) == t
    ensures IsSubsequence(r, TrimAll(Split(s, ',')))
    ensures |r| <= Count(s, ',') + 1
  {
    var pieces := TrimAll(Split(s, ','));
    TrimAllPadded(Split(s, ','));
    var r := FilterBy(pieces, (t: string) => t != "");
    NonEmptyPieces(pieces, r, Count(s, ',') + 1);
    r
  }

  /** The facts `ParseTags` promises, for any trimmed pieces and their non-empty filter. */
  lemma NonEmptyPieces(pieces: seq<string>, r: seq<string>, n: nat)
    requires forall i :: 0 <= i < |pieces| ==> Trim(pieces[i]) == pieces[i]
    requires |pieces| == n && r == FilterBy(pieces, (t: string) => t != "")
    ensures forall t :: t in r <==> t != "" && t in pieces
    ensures forall i :: 0 <= i < |r| ==> multiset(r)[r[i]] == multiset(pieces)[r[i]]
    ensures forall t :: t in r ==> Trim(t) == t
    ensures IsSubsequence(r, pieces)
    ensures |r| <= n
  {
    SubsequenceMembers(r, pieces);
    FilterByCounts(pieces, (t: string) => t != "");
    forall i | 0 <= i < |r|
      ensures multiset(r)[r[i]] == multiset(pieces)[r[i]]
    {
      assert r[i] in r;
    }
  }

  /** Tags that are non-empty, trimmed and free of commas. */
  predicate CleanTags(tags: seq<string>) {
    forall i :: 0 <= i < |tags| ==> tags[i] != "" && Trim(tags[i]) == tags[i] && ',' !in tags[i]
  }

  /** The tag field for a list of tags: the tags separated by commas. */
  function TagsText(tags: seq<string>): string {
    if |tags| == 0 then "" else Join(tags, ',')
  }

  /** Writing clean tags comma-separated and parsing the field gives the same tags back. */
  lemma ParseTagsText(tags: seq<string>)
    requires CleanTags(tags)
    ensures ParseTags(TagsText(tags)) == tags
  {
    if |tags| == 0 {
      BlankTagsField("");
    } else {
      forall i | 0 <= i < |tags|
        ensures ',' !in tags[i]
      {
      }
      JoinSplit(tags, ',');
      var pieces := TrimAll(tags);
      assert pieces == tags;
      FilterByAll(tags, (t: string) => t != "");
    }
  }

  /** Splitting a join of separator-free pieces gives the pieces back. */
  lemma {:induction false} JoinSplit(pieces: seq<string>, sep: char)
    requires |pieces| > 0 && forall i :: 0 <= i < |pieces| ==> sep !in pieces[i]
    ensures Split(Join(pieces, sep), sep) == pieces
    decreases |pieces|
  {
    if |pieces| == 1 {
      SplitNoSep(pieces[0], sep);
    } else {
      JoinSplit(pieces[1..], sep);
      SplitAfterPiece(pieces[0], Join(pieces[1..], sep), sep);
      assert pieces == [pieces[0]] + pieces[1..];
    }
  }

  lemma {:induction false} SplitNoSep(a: string, sep: char)
    requires sep !in a
    ensures Split(a, sep) == [a]
    decreases |a|
  {
    if |a| > 0 {
      SplitNoSep(a[1..], sep);
      assert a == [a[0]] + a[1..];
    }
  }

  lemma {:induction false} SplitAfterPiece(a: string, t: string, sep: char)
    requires sep !in a
    ensures Split(a + [sep] + t, sep) == [a] + Split(t, sep)
    decreases |a|
  {
    var s := a + [sep] + t;
    if |a| == 0 {
      assert s[1..] == t;
    } else {
      assert s[1..] == a[1..] + [sep] + t;
      SplitAfterPiece(a[1..], t, sep);
      assert a == [a[0]] + a[1..];
    }
  }

  /** A field holding only commas and white space gives no tags. */
  lemma BlankTagsField(s: string)
    requires forall i :: 0 <= i < |s| ==> s[i] == ',' || IsSpace(s[i])
    ensures ParseTags(s) == []
  {
    var parts := Split(s, ',');
    var pieces := TrimAll(parts);
    forall t | t in pieces
      ensures t == ""
    {
      var i :| 0 <= i < |pieces| && pieces[i] == t;
      forall k | 0 <= k < |parts[i]|
        ensures IsSpace(parts[i][k])
      {
        assert parts[i][k] in s;
      }
      BlankIffAllSpace(parts[i]);
    }
    FilterByNone(pieces, (t: string) => t != "");
  }

  /** The form state. */
  datatype AddPdfForm = AddPdfForm(title: string, description: string, tags: string, file: Option<string>)

  /** What the page hands to the upload call; `file` is the chosen file's name. */
  datatype UploadRequest = UploadRequest(title: string, description: string, tags: seq<string>, file: string)

  datatype Submitted = Submitted(form: AddPdfForm, request: Option<UploadRequest>)

  const EmptyForm: AddPdfForm := AddPdfForm("", "", "", None)

  /**
   `handleUpload`. Without a file nothing is sent. Otherwise the request
   carries the parsed tags; a successful upload clears the form, and a
   failed one rejects out of the handler before the reset, leaving the form
   as it was.
   */
  function HandleUpload(f: AddPdfForm, uploadSucceeds: bool): (r: Submitted)
    ensures f.file.None? ==> r == Submitted(f, None)
    ensures f.file.Some? ==> r.request == Some(UploadRequest(f.title, f.description, ParseTags(f.tags), f.file.value))
    ensures f.file.Some? && uploadSucceeds ==> r.form == EmptyForm
    ensures !uploadSucceeds ==> r.form == f
  {
    if f.file.None? then Submitted(f, None)
    else
      var req := UploadRequest(f.title, f.description, ParseTags(f.tags), f.file.value);
      Submitted(if uploadSucceeds then EmptyForm else f, Some(req))
  }

  /**
   The multipart form the client sends for a request: the title always, the
   description only when non-empty, the tags always, encoded as JSON.
   */
  function Fields(req: UploadRequest): (Option<string>, Option<string>, PdfNotesApi.TagsField) {
    (Some(req.title), if req.description != "" then Some(req.description) else None, PdfNotesApi.TagsJson(req.tags))
  }

  /**
   The server reads back what the page sent: the title, the description
   exactly when it was non-empty, and the tag list.
   */
  lemma FieldsDecoded(req: UploadRequest)
    ensures var (title, description, tags) := Fields(req);
      && title == Some(req.title)
      && (Present(title) <==> req.title != "")
      && (description.Some? <==> req.description != "")
      && (description.Some? ==> description.value == req.description)
      && PdfNotesApi.DecodeTags(tags) == Some(req.tags)
  {
  }

  /**
   Page and server together: an upload the page sends is accepted exactly
   when its title is non-empty, and the stored note carries the parsed tags
   and no description when the description was left empty.
   */
  lemma PageUploadAccepted(s: PdfNotesApi.Server, f: AddPdfForm, fileTime: nat, saveTime: int)
    requires f.file.Some?
    ensures var req := HandleUpload(f, true).request.value;
      var (title, description, tags) := Fields(req);
      var x := PdfNotesApi.HandleUpload(s, Some(req.file), title, description, tags, fileTime, saveTime);
      && (x.response.status == 201 <==> f.title != "")
      && (x.response.status == 201 ==>
            x.response.body.OneNote?
            && x.response.body.doc.body.tags == ParseTags(f.tags)
            && (f.description == "" ==> x.response.body.doc.body.description.None?))
  {
    var req := HandleUpload(f, true).request.value;
    assert req == UploadRequest(f.title, f.description, ParseTags(f.tags), f.file.value);
    RequestAccepted(s, req, fileTime, saveTime);
  }

  /** The server's answer to any request the page can send. */
  lemma RequestAccepted(s: PdfNotesApi.Server, req: UploadRequest, fileTime: nat, saveTime: int)
    ensures var (title, description, tags) := Fields(req);
      var x := PdfNotesApi.HandleUpload(s, Some(req.file), title, description, tags, fileTime, saveTime);
      && (x.response.status == 201 <==> req.title != "")
      && (x.response.status == 201 ==>
            x.response.body.OneNote?
            && x.response.body.doc.body.tags == req.tags
            && (req.description == "" ==> x.response.body.doc.body.description.None?))
  {
    FieldsDecoded(req);
    var (title, description, tags) := Fields(req);
    var x := PdfNotesApi.HandleUpload(s, Some(req.file), title, description, tags, fileTime, saveTime);
    var u := PdfNotesApi.UploadPdfNote(s.notes, Some(Uploads.StoredName(fileTime, req.file)), title, description, tags, saveTime);
    assert x.response == u.response;
  }
}
