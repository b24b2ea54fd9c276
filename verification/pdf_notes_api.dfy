/**
 The PdfNote endpoints and the upload route, over an in-memory note
 collection, together with the uploads directory they share with the
 reconciliation pass.

 Document ids are modelled as naturals; a new document gets an id larger than
 every id in the collection. Times are parameters.
 */
module PdfNotesApi {
  import opened Seqs
  import opened Schemas
  import opened Uploads
  import Reconcile
  import Text

  type Store = seq<Doc<PdfNote>>

  datatype Body = NoteList(docs: Store) | OneNote(doc: Doc<PdfNote>) | ErrorMessage(message: string)

  datatype Response = Response(status: nat, body: Body)

  /** The `tags` form field: absent (or empty), a decoded JSON list, or text `JSON.parse` rejects. */
  datatype TagsField = TagsAbsent | TagsJson(list: seq<string>) | TagsMalformed

  datatype UploadResult = UploadResult(store: Store, response: Response)

  predicate HasId(store: Store, id: nat) {
    exists d :: d in store && d.id == id
  }

  /** Note bodies of the collection, in storage order. */
  function Bodies(store: Store): seq<PdfNote> {
    seq(|store|, i requires 0 <= i < |store| => store[i].body)
  }

  /** An id no stored document has. */
  function FreshId(store: Store): (id: nat)
    ensures forall d :: d in store ==> d.id < id
    decreases |store|
  {
    if |store| == 0 then 0
    else
      var rest := FreshId(store[1..]);
      assert forall d :: d in store ==> d == store[0] || d in store[1..];
      if store[0].id < rest then rest else store[0].id + 1
  }

  /** `PdfNote.findById(id)`: the first document carrying `id`. */
  function FindById(store: Store, id: nat): (r: Option<Doc<PdfNote>>)
    ensures r.Some? <==> HasId(store, id)
    ensures r.Some? ==> r.value in store && r.value.id == id
    decreases |store|
  {
    if |store| == 0 then None
    else if store[0].id == id then Some(store[0])
    else
      assert forall d :: d in store ==> d == store[0] || d in store[1..];
      FindById(store[1..], id)
  }

  /** `GET /api/pdf-notes`. */
  function GetPdfNotes(store: Store): Response {
    Response(200, NoteList(store))
  }

  /** `GET /api/pdf-notes/:id`: the note, or 404 when no note has the id. */
  function GetPdfNote(store: Store, id: nat): (r: Response)
    ensures r.status == 200 || r.status == 404
    ensures r.status == 200 <==> HasId(store, id)
    ensures r.status == 200 ==> r.body.OneNote? && r.body.doc in store && r.body.doc.id == id
    ensures r.status == 404 ==> r.body == ErrorMessage("PDF note not found")
  {
    match FindById(store, id)
    case None => Response(404, ErrorMessage("PDF note not found"))
    case Some(d) => Response(200, OneNote(d))
  }

  /** `tags ? JSON.parse(tags) : []`, with a parse failure as `None`. */
  function DecodeTags(tags: TagsField): Option<seq<string>> {
    match tags
    case TagsAbsent => Some([])
    case TagsJson(list) => Some(list)
    case TagsMalformed => None
  }

  /**
   The tags an upload saves: none when the field is absent or empty, the
   decoded list otherwise; a field that does not decode rejects the upload
   whatever else it carries.
   */
  lemma UploadTagsDecoded(
    store: Store, storedFile: Option<string>, title: Option<string>, description: Option<string>,
    tags: TagsField, now: int)
    ensures var r := UploadPdfNote(store, storedFile, title, description, tags, now);
      && (tags.TagsMalformed? ==> r.response.status == 400 && r.store == store)
      && (r.response.status == 201 && tags.TagsAbsent? ==> r.response.body.doc.body.tags == [])
      && (r.response.status == 201 && tags.TagsJson? ==> r.response.body.doc.body.tags == tags.list)
  {
  }

  /** The `pdfUrl` the controller records: the stored file's URL, or `""` without a file. */
  function UploadedUrl(storedFile: Option<string>): (url: string)
    ensures storedFile.Some? ==> url == PdfUrlOf(storedFile.value)
    ensures storedFile.None? ==> url == ""
  {
    if storedFile.Some? then PdfUrlOf(storedFile.value) else ""
  }

  /**
   `POST /api/pdf-notes/upload` after the file (if any) has been written under
   `storedFile`: 201 with the saved note, or 400 with the store unchanged when
   the tags do not decode or validation fails.
   */
  function UploadPdfNote(
    store: Store, storedFile: Option<string>, title: Option<string>, description: Option<string>,
    tags: TagsField, now: int): (r: UploadResult)
    ensures r.response.status == 201 || r.response.status == 400
    ensures r.response.status == 201 <==> storedFile.Some? && Present(title) && !tags.TagsMalformed?
    ensures r.response.status == 201 ==>
      && r.response.body.OneNote?
      && r.store == store + [r.response.body.doc]
      && !HasId(store, r.response.body.doc.id)
      && r.response.body.doc.body == PdfNote(title.value, description, PdfUrlOf(storedFile.value), DecodeTags(tags).value)
      && r.response.body.doc.createdAt == now && r.response.body.doc.updatedAt == now
    ensures r.response.status == 400 ==>
      r.store == store && r.response.body == ErrorMessage("Failed to upload PDF note")
  {
    var url := UploadedUrl(storedFile);
    var decoded := DecodeTags(tags);
    if decoded.None? then
      UploadResult(store, Response(400, ErrorMessage("Failed to upload PDF note")))
    else
      match ValidatePdfNote(PdfNoteFields(title, description, Some(url), Some(decoded.value)))
      case Invalid(_) => UploadResult(store, Response(400, ErrorMessage("Failed to upload PDF note")))
      case Valid(note) =>
        var doc := SaveNew(FreshId(store), note, now);
        UploadResult(store + [doc], Response(201, OneNote(doc)))
  }

  /** The list endpoint and the single-note endpoint agree: a note found by id is in the list, and every listed note is found by its id. */
  lemma GetAgreesWithList(store: Store, id: nat)
    ensures GetPdfNotes(store).status == 200 && GetPdfNotes(store).body.NoteList?
    ensures GetPdfNote(store, id).status == 200 ==> GetPdfNote(store, id).body.doc in GetPdfNotes(store).body.docs
    ensures (exists d :: d in GetPdfNotes(store).body.docs && d.id == id) ==> GetPdfNote(store, id).status == 200
  {
  }

  /** A saved upload is found again by its id, and is listed after every earlier note. */
  lemma UploadThenRead(
    store: Store, storedFile: Option<string>, title: Option<string>, description: Option<string>,
    tags: TagsField, now: int)
    requires UploadPdfNote(store, storedFile, title, description, tags, now).response.status == 201
    ensures var r := UploadPdfNote(store, storedFile, title, description, tags, now);
      && GetPdfNote(r.store, r.response.body.doc.id) == Response(200, OneNote(r.response.body.doc))
      && GetPdfNotes(r.store) == Response(200, NoteList(store + [r.response.body.doc]))
  {
    var r := UploadPdfNote(store, storedFile, title, description, tags, now);
    FindAppendFresh(store, r.response.body.doc);
  }

  lemma {:induction false} FindAppendFresh(store: Store, d: Doc<PdfNote>)
    requires !HasId(store, d.id)
    ensures FindById(store + [d], d.id) == Some(d)
    decreases |store|
  {
    if |store| > 0 {
      assert (store + [d])[1..] == store[1..] + [d];
      assert store[0] in store;
      FindAppendFresh(store[1..], d);
    }
  }

  // ---------------------------------------------------------------------------
  // The server as a whole: the uploads directory and the note collection.

  datatype Server = Server(uploads: seq<string>, notes: Store)

  datatype Exchange = Exchange(server: Server, response: Response)

  /**
   The upload route: the disk storage writes the file first, under its
   time-stamped name, then the controller runs. A rejected request leaves the
   written file behind.
   */
  function HandleUpload(
    s: Server, original: Option<string>, title: Option<string>, description: Option<string>,
    tags: TagsField, fileTime: nat, saveTime: int): (x: Exchange)
    ensures original.Some? ==> x.server.uploads == s.uploads + [StoredName(fileTime, original.value)]
    ensures original.None? ==> x.server.uploads == s.uploads && x.response.status == 400
  {
    var stored := if original.Some? then Some(StoredName(fileTime, original.value)) else None;
    var uploads := if original.Some? then s.uploads + [stored.value] else s.uploads;
    var r := UploadPdfNote(s.notes, stored, title, description, tags, saveTime);
    Exchange(Server(uploads, r.store), r.response)
  }

  /** Saves the notes a reconciliation pass registered, with fresh ids. */
  function SaveAll(store: Store, notes: seq<PdfNote>, now: int): (r: Store)
    ensures |r| == |store| + |notes| && r[..|store|] == store
    ensures Bodies(r) == Bodies(store) + notes
    decreases |notes|
  {
    if |notes| == 0 then store
    else
      var next := store + [SaveNew(FreshId(store), notes[0], now)];
      assert Bodies(next) == Bodies(store) + [notes[0]];
      var r := SaveAll(next, notes[1..], now);
      assert r[..|store|] == r[..|next|][..|store|];
      assert notes == [notes[0]] + notes[1..];
      r
  }

  /** The reconciliation pass run against the server's directory and collection. */
  function ReconcileServer(s: Server, now: int): (t: Server)
    ensures t.uploads == s.uploads
    ensures |t.notes| >= |s.notes| && t.notes[..|s.notes|] == s.notes
  {
    var r := Reconcile.InitializeExistingPdfs(Some(s.uploads), Bodies(s.notes));
    Server(s.uploads, SaveAll(s.notes, r.created, now))
  }

  /** Reconciling twice over an unchanged directory changes nothing the second time. */
  lemma ReconcileServerIdempotent(s: Server, t1: int, t2: int)
    ensures ReconcileServer(ReconcileServer(s, t1), t2) == ReconcileServer(s, t1)
  {
    var r := Reconcile.InitializeExistingPdfs(Some(s.uploads), Bodies(s.notes));
    var s1 := ReconcileServer(s, t1);
    assert Bodies(s1.notes) == Bodies(s.notes) + r.created;
    Reconcile.InitializeIdempotent(Some(s.uploads), Bodies(s.notes));
  }

  lemma BodiesAppend(store: Store, d: Doc<PdfNote>)
    ensures Bodies(store + [d]) == Bodies(store) + [d.body]
  {
  }

  /**
   An accepted upload is never registered a second time by reconciliation:
   the note it saved already has the URL the pass would compute for its file.
   */
  lemma UploadNotDuplicated(
    s: Server, original: string, title: Option<string>, description: Option<string>,
    tags: TagsField, fileTime: nat, saveTime: int, now: int)
    requires HandleUpload(s, Some(original), title, description, tags, fileTime, saveTime).response.status == 201
    ensures var s1 := HandleUpload(s, Some(original), title, description, tags, fileTime, saveTime).server;
      var created := Reconcile.InitializeExistingPdfs(Some(s1.uploads), Bodies(s1.notes)).created;
      forall n :: n in created ==> n.pdfUrl != PdfUrlOf(StoredName(fileTime, original))
  {
    var x := HandleUpload(s, Some(original), title, description, tags, fileTime, saveTime);
    var d := x.response.body.doc;
    BodiesAppend(s.notes, d);
    assert d.body in Bodies(x.server.notes);
    var created := Reconcile.InitializeExistingPdfs(Some(x.server.uploads), Bodies(x.server.notes)).created;
    forall n | n in created
      ensures n.pdfUrl != PdfUrlOf(StoredName(fileTime, original))
    {
      var i :| 0 <= i < |created| && created[i] == n;
    }
  }

  /**
   A rejected upload of a PDF leaves an orphaned file. A later reconciliation
   over any listing of the directory that holds it, at position `j` among the
   PDF names, registers it under the client's file name without `.pdf`, with
   the auto-import description and tag, provided the file name leaves a title
   and no file listed before it stops the pass.
   */
  lemma RejectedUploadRecovered(
    s: Server, original: string, title: Option<string>, description: Option<string>,
    tags: TagsField, fileTime: nat, saveTime: int, listing: seq<string>, j: nat)
    requires HandleUpload(s, Some(original), title, description, tags, fileTime, saveTime).response.status == 400
    requires !Reconcile.HasUrl(Bodies(s.notes), PdfUrlOf(StoredName(fileTime, original)))
    requires StripPdfExtension(original) != ""
    requires var pdfs := FilterBy(listing, IsPdfName);
      && j < |pdfs| && pdfs[j] == StoredName(fileTime, original)
      && Reconcile.ReachesFile(pdfs, Bodies(s.notes), j)
    ensures var s1 := HandleUpload(s, Some(original), title, description, tags, fileTime, saveTime).server;
      var created := Reconcile.InitializeExistingPdfs(Some(listing), Bodies(s1.notes)).created;
      exists n :: n in created && n.pdfUrl == PdfUrlOf(StoredName(fileTime, original))
        && n.title == StripPdfExtension(original)
        && n.description == Some(Reconcile.AutoDescription) && n.tags == [Reconcile.AutoTag]
  {
    var name := StoredName(fileTime, original);
    var s1 := HandleUpload(s, Some(original), title, description, tags, fileTime, saveTime).server;
    assert s1.notes == s.notes;
    var stored := Bodies(s.notes);
    var pdfs := FilterBy(listing, IsPdfName);
    TitleOfStoredName(fileTime, original);
    Reconcile.ScanReaches(pdfs, stored, j);
    var r := Reconcile.InitializeExistingPdfs(Some(listing), stored);
    assert r == Reconcile.Scan(pdfs, stored);
    var n :| n in stored + r.created && n.pdfUrl == PdfUrlOf(name);
    assert n in r.created;
    var f :| f in listing && IsPdfName(f) && n == Reconcile.AutoNote(f);
    PdfUrlInjective(f, name);
  }

  /**
   An untitled upload of `a.pdf` into an empty server is rejected, and the
   next pass over the directory registers the orphan under the title `a`.
   */
  lemma UntitledUploadRecovered(fileTime: nat, saveTime: int)
    ensures var x := HandleUpload(Server([], []), Some("a" + PdfExtension), None, None, TagsAbsent, fileTime, saveTime);
      && x.response.status == 400
      && (exists n :: n in Reconcile.InitializeExistingPdfs(Some(x.server.uploads), Bodies(x.server.notes)).created
            && n.title == "a")
  {
    var original := "a" + PdfExtension;
    var s := Server([], []);
    var x := HandleUpload(s, Some(original), None, None, TagsAbsent, fileTime, saveTime);
    var name := StoredName(fileTime, original);
    Text.LowerAppend("a", PdfExtension);
    PdfExtensionIsLower();
    assert Text.Lower("a") == "a";
    assert IsPdfName(original);
    StoredNameKeepsPdf(fileTime, original);
    assert StripPdfExtension(original) == "a";
    assert x.server.uploads == [name];
    assert FilterBy([name], IsPdfName) == [name];
    RejectedUploadRecovered(s, original, None, None, TagsAbsent, fileTime, saveTime, [name], 0);
  }
}
