/**
 The reconciliation pass that registers PDF files found in the uploads
 directory but missing from the note collection.

 The directory listing is a value (`None` when the directory does not exist)
 and the collection is the sequence of stored note bodies. Files are handled
 one after another; each lookup sees the notes saved for earlier files. A save
 that fails validation throws out of the loop: the pass stops there, the notes
 saved before it stay, and the error is swallowed.
 */
module Reconcile {
  import opened Seqs
  import opened Text
  import opened Schemas
  import opened Uploads

  const AutoDescription: string := "Auto-imported from uploads folder"
  const AutoTag: string := "auto-imported"

  /** `PdfNote.findOne({ pdfUrl })` finds a note. */
  predicate HasUrl(notes: seq<PdfNote>, url: string) {
    exists n :: n in notes && n.pdfUrl == url
  }

  /** The fields the pass hands to the model for one file. */
  function AutoFields(filename: string): PdfNoteFields {
    PdfNoteFields(Some(TitleOf(filename)), Some(AutoDescription), Some(PdfUrlOf(filename)), Some([AutoTag]))
  }

  /** The note the pass registers for one file, when its save succeeds. */
  function AutoNote(filename: string): PdfNote {
    PdfNote(TitleOf(filename), Some(AutoDescription), PdfUrlOf(filename), [AutoTag])
  }

  /** The save of an auto-imported note fails exactly when the derived title is empty. */
  lemma AutoFieldsValidation(filename: string)
    ensures ValidatePdfNote(AutoFields(filename)).Valid? <==> TitleOf(filename) != ""
    ensures ValidatePdfNote(AutoFields(filename)).Valid? ==>
      ValidatePdfNote(AutoFields(filename)).value == AutoNote(filename)
  {
  }

  /** Notes registered by a pass, and whether a failed save cut it short. */
  datatype ScanResult = ScanResult(created: seq<PdfNote>, stopped: bool)

  /** The loop over the PDF files, against the notes already stored. */
  function Scan(files: seq<string>, stored: seq<PdfNote>): (r: ScanResult)
    ensures forall n :: n in r.created ==> exists f :: f in files && n == AutoNote(f)
    ensures forall i :: 0 <= i < |r.created| ==> !HasUrl(stored, r.created[i].pdfUrl)
    ensures forall i, j :: 0 <= i < j < |r.created| ==> r.created[i].pdfUrl != r.created[j].pdfUrl
    ensures !r.stopped ==> forall f :: f in files ==> HasUrl(stored + r.created, PdfUrlOf(f))
    decreases |files|
  {
    if |files| == 0 then ScanResult([], false)
    else
      var f := files[0];
      if HasUrl(stored, PdfUrlOf(f)) then
        var rest := Scan(files[1..], stored);
        ScanResult(rest.created, rest.stopped)
      else
        var v := ValidatePdfNote(AutoFields(f));
        if v.Invalid? then ScanResult([], true)
        else
          var n := v.value;
          AutoFieldsValidation(f);
          var rest := Scan(files[1..], stored + [n]);
          ScanConsSound(files, stored, rest);
          ScanResult([n] + rest.created, rest.stopped)
  }

  lemma ScanAppendHelper(stored: seq<PdfNote>, n: PdfNote, more: seq<PdfNote>)
    ensures stored + [n] + more == stored + ([n] + more)
  {
  }

  /** The four promises of `Scan` about a result `r` for `files` against `stored`. */
  ghost predicate ScanSound(files: seq<string>, stored: seq<PdfNote>, r: ScanResult) {
    && (forall n :: n in r.created ==> exists f :: f in files && n == AutoNote(f))
    && (forall i :: 0 <= i < |r.created| ==> !HasUrl(stored, r.created[i].pdfUrl))
    && (forall i, j :: 0 <= i < j < |r.created| ==> r.created[i].pdfUrl != r.created[j].pdfUrl)
    && (!r.stopped ==> forall f :: f in files ==> HasUrl(stored + r.created, PdfUrlOf(f)))
  }

  /** Registering the first file in front of a sound result for the rest gives a sound result. */
  lemma ScanConsSound(files: seq<string>, stored: seq<PdfNote>, rest: ScanResult)
    requires |files| > 0 && !HasUrl(stored, PdfUrlOf(files[0]))
    requires ScanSound(files[1..], stored + [AutoNote(files[0])], rest)
    ensures ScanSound(files, stored, ScanResult([AutoNote(files[0])] + rest.created, rest.stopped))
  {
    var n := AutoNote(files[0]);
    ConsFromFiles(files, n, rest.created);
    ConsNotStored(stored, n, rest.created);
    ConsDistinct(stored, n, rest.created);
    if !rest.stopped {
      ConsCovers(files, stored, n, rest.created);
    }
  }

  lemma ConsFromFiles(files: seq<string>, n: PdfNote, more: seq<PdfNote>)
    requires |files| > 0 && n == AutoNote(files[0])
    requires forall m :: m in more ==> exists f :: f in files[1..] && m == AutoNote(f)
    ensures forall m :: m in [n] + more ==> exists f :: f in files && m == AutoNote(f)
  {
    forall m | m in [n] + more
      ensures exists f :: f in files && m == AutoNote(f)
    {
      if m in more {
        var f :| f in files[1..] && m == AutoNote(f);
        assert f in files;
      } else {
        assert files[0] in files;
      }
    }
  }

  lemma ConsNotStored(stored: seq<PdfNote>, n: PdfNote, more: seq<PdfNote>)
    requires !HasUrl(stored, n.pdfUrl)
    requires forall i :: 0 <= i < |more| ==> !HasUrl(stored + [n], more[i].pdfUrl)
    ensures forall i :: 0 <= i < |[n] + more| ==> !HasUrl(stored, ([n] + more)[i].pdfUrl)
  {
    var c := [n] + more;
    forall i | 0 <= i < |c|
      ensures !HasUrl(stored, c[i].pdfUrl)
    {
      if i > 0 {
        assert c[i] == more[i - 1];
        assert forall m :: m in stored ==> m in stored + [n];
      }
    }
  }

  lemma ConsDistinct(stored: seq<PdfNote>, n: PdfNote, more: seq<PdfNote>)
    requires forall i :: 0 <= i < |more| ==> !HasUrl(stored + [n], more[i].pdfUrl)
    requires forall i, j :: 0 <= i < j < |more| ==> more[i].pdfUrl != more[j].pdfUrl
    ensures forall i, j :: 0 <= i < j < |[n] + more| ==> ([n] + more)[i].pdfUrl != ([n] + more)[j].pdfUrl
  {
    var c := [n] + more;
    assert n in stored + [n];
    forall i, j | 0 <= i < j < |c|
      ensures c[i].pdfUrl != c[j].pdfUrl
    {
      assert c[j] == more[j - 1];
      if i > 0 {
        assert c[i] == more[i - 1];
      }
    }
  }

  lemma ConsCovers(files: seq<string>, stored: seq<PdfNote>, n: PdfNote, more: seq<PdfNote>)
    requires |files| > 0 && n.pdfUrl == PdfUrlOf(files[0])
    requires forall f :: f in files[1..] ==> HasUrl(stored + [n] + more, PdfUrlOf(f))
    ensures forall f :: f in files ==> HasUrl(stored + ([n] + more), PdfUrlOf(f))
  {
    ScanAppendHelper(stored, n, more);
    forall f | f in files
      ensures HasUrl(stored + ([n] + more), PdfUrlOf(f))
    {
      if f != files[0] {
        assert f in files[1..];
      } else {
        assert n in stored + ([n] + more);
      }
    }
  }

  /**
   `initializeExistingPdfs`: a missing directory is created and nothing is
   registered; otherwise only names ending in `.pdf` (any case) are scanned.
   */
  function InitializeExistingPdfs(listing: Option<seq<string>>, stored: seq<PdfNote>): (r: ScanResult)
    ensures listing.None? ==> r == ScanResult([], false)
    ensures forall n :: n in r.created ==>
      listing.Some? && exists f :: f in listing.value && IsPdfName(f) && n == AutoNote(f)
    ensures forall i :: 0 <= i < |r.created| ==> !HasUrl(stored, r.created[i].pdfUrl)
    ensures !r.stopped && listing.Some? ==>
      forall f :: f in listing.value && IsPdfName(f) ==> HasUrl(stored + r.created, PdfUrlOf(f))
  {
    if listing.None? then ScanResult([], false)
    else
      var pdfs := FilterBy(listing.value, IsPdfName);
      if |pdfs| == 0 then ScanResult([], false)
      else Scan(pdfs, stored)
  }

  /** A directory without PDF files registers nothing. */
  lemma NoPdfsNoNotes(listing: seq<string>, stored: seq<PdfNote>)
    requires forall f :: f in listing ==> !IsPdfName(f)
    ensures InitializeExistingPdfs(Some(listing), stored) == ScanResult([], false)
  {
    FilterByNone(listing, IsPdfName);
  }

  /**
   Idempotence of the loop: scanning the same files again, against the notes
   the first scan left behind, registers nothing.
   */
  lemma {:induction false} ScanIdempotent(files: seq<string>, stored: seq<PdfNote>)
    ensures Scan(files, stored + Scan(files, stored).created).created == []
    decreases |files|
  {
    var r := Scan(files, stored);
    if |files| > 0 {
      var f := files[0];
      var after := stored + r.created;
      if HasUrl(stored, PdfUrlOf(f)) {
        ScanIdempotent(files[1..], stored);
      } else if ValidatePdfNote(AutoFields(f)).Valid? {
        var n := ValidatePdfNote(AutoFields(f)).value;
        var rest := Scan(files[1..], stored + [n]);
        assert r.created == [n] + rest.created;
        ScanAppendHelper(stored, n, rest.created);
        assert after == stored + [n] + rest.created;
        ScanIdempotent(files[1..], stored + [n]);
      } else {
        assert r.created == [];
        assert after == stored;
      }
    }
  }

  /** Idempotence of the whole pass over an unchanged directory. */
  lemma InitializeIdempotent(listing: Option<seq<string>>, stored: seq<PdfNote>)
    ensures InitializeExistingPdfs(listing, stored + InitializeExistingPdfs(listing, stored).created).created == []
  {
    if listing.Some? {
      var pdfs := FilterBy(listing.value, IsPdfName);
      if |pdfs| > 0 {
        ScanIdempotent(pdfs, stored);
      } else {
        assert stored + [] == stored;
      }
    }
  }

  /** No file before `j` can stop the pass: each is registered already or has a title. */
  predicate ReachesFile(files: seq<string>, stored: seq<PdfNote>, j: int) {
    && 0 <= j < |files|
    && forall i :: 0 <= i < j ==> TitleOf(files[i]) != "" || HasUrl(stored, PdfUrlOf(files[i]))
  }

  /**
   A pass that cannot stop before file `j`, where file `j` itself has a
   title, leaves file `j` registered, whatever comes after it.
   */
  lemma {:induction false} ScanReaches(files: seq<string>, stored: seq<PdfNote>, j: int)
    requires ReachesFile(files, stored, j) && TitleOf(files[j]) != ""
    ensures HasUrl(stored + Scan(files, stored).created, PdfUrlOf(files[j]))
    decreases |files|
  {
    if j == 0 {
      ReachHere(files, stored);
    } else {
      assert files[1..][j - 1] == files[j];
      if HasUrl(stored, PdfUrlOf(files[0])) {
        ReachesTail(files, stored, stored, j);
        ScanReaches(files[1..], stored, j - 1);
        ReachSkip(files, stored, PdfUrlOf(files[j]));
      } else {
        var n := AutoNote(files[0]);
        ReachesTail(files, stored, stored + [n], j);
        ScanReaches(files[1..], stored + [n], j - 1);
        ReachAdd(files, stored, PdfUrlOf(files[j]));
      }
    }
  }

  /** A first file with a title is registered by the pass, now or before. */
  lemma ReachHere(files: seq<string>, stored: seq<PdfNote>)
    requires |files| > 0 && TitleOf(files[0]) != ""
    ensures HasUrl(stored + Scan(files, stored).created, PdfUrlOf(files[0]))
  {
    if HasUrl(stored, PdfUrlOf(files[0])) {
      HasUrlExtends(stored, Scan(files, stored).created, PdfUrlOf(files[0]));
    } else {
      ScanAdd(files, stored);
      assert AutoNote(files[0]) in stored + Scan(files, stored).created;
    }
  }

  /** Skipping a registered first file keeps what the rest of the pass registers. */
  lemma ReachSkip(files: seq<string>, stored: seq<PdfNote>, url: string)
    requires |files| > 0 && HasUrl(stored, PdfUrlOf(files[0]))
    requires HasUrl(stored + Scan(files[1..], stored).created, url)
    ensures HasUrl(stored + Scan(files, stored).created, url)
  {
    ScanSkip(files, stored);
  }

  /** Registering the first file keeps what the rest of the pass registers. */
  lemma ReachAdd(files: seq<string>, stored: seq<PdfNote>, url: string)
    requires |files| > 0 && !HasUrl(stored, PdfUrlOf(files[0])) && TitleOf(files[0]) != ""
    requires HasUrl(stored + [AutoNote(files[0])] + Scan(files[1..], stored + [AutoNote(files[0])]).created, url)
    ensures HasUrl(stored + Scan(files, stored).created, url)
  {
    ScanAdd(files, stored);
    ScanAppendHelper(stored, AutoNote(files[0]), Scan(files[1..], stored + [AutoNote(files[0])]).created);
  }

  /** One step of the loop over a file that is already registered. */
  lemma ScanSkip(files: seq<string>, stored: seq<PdfNote>)
    requires |files| > 0 && HasUrl(stored, PdfUrlOf(files[0]))
    ensures Scan(files, stored) == Scan(files[1..], stored)
  {
  }

  /** One step of the loop over a file that is registered now. */
  lemma ScanAdd(files: seq<string>, stored: seq<PdfNote>)
    requires |files| > 0 && !HasUrl(stored, PdfUrlOf(files[0])) && TitleOf(files[0]) != ""
    ensures var rest := Scan(files[1..], stored + [AutoNote(files[0])]);
      Scan(files, stored) == ScanResult([AutoNote(files[0])] + rest.created, rest.stopped)
  {
    AutoFieldsValidation(files[0]);
  }

  /** A note found in `stored` is still found after more notes are saved. */
  lemma HasUrlExtends(stored: seq<PdfNote>, more: seq<PdfNote>, url: string)
    ensures HasUrl(stored, url) ==> HasUrl(stored + more, url)
  {
    assert forall m :: m in stored ==> m in stored + more;
  }

  /** Reaching file `j` from the first file means reaching file `j - 1` of the rest, against any larger store. */
  lemma ReachesTail(files: seq<string>, stored: seq<PdfNote>, later: seq<PdfNote>, j: int)
    requires ReachesFile(files, stored, j) && j > 0
    requires forall m :: m in stored ==> m in later
    ensures ReachesFile(files[1..], later, j - 1)
  {
    forall i | 0 <= i < j - 1
      ensures TitleOf(files[1..][i]) != "" || HasUrl(later, PdfUrlOf(files[1..][i]))
    {
      assert files[1..][i] == files[i + 1];
    }
  }

  /** The scan stopped at file `k`: its title is empty, it was not registered, and no later file was. */
  ghost predicate StopsAt(files: seq<string>, stored: seq<PdfNote>, k: int) {
    && 0 <= k < |files|
    && TitleOf(files[k]) == ""
    && !HasUrl(stored, PdfUrlOf(files[k]))
    && forall n :: n in Scan(files, stored).created ==> exists j :: 0 <= j < k && n == AutoNote(files[j])
  }

  /**
   A file whose derived title is empty (say `1700000000000-.pdf`) makes its
   save fail; a pass that stopped stopped at such a file, and every note it
   registered comes from a file listed before that one.
   */
  lemma {:induction false} ScanStopsAtEmptyTitle(files: seq<string>, stored: seq<PdfNote>)
    requires Scan(files, stored).stopped
    ensures exists k :: StopsAt(files, stored, k)
    decreases |files|
  {
    var f := files[0];
    ScanUnfold(files, stored);
    if HasUrl(stored, PdfUrlOf(f)) {
      ScanStopsAtEmptyTitle(files[1..], stored);
      var k :| StopsAt(files[1..], stored, k);
      StopsAtShift(files, stored, stored, [], k);
    } else if TitleOf(f) != "" {
      var n0 := AutoNote(f);
      ScanStopsAtEmptyTitle(files[1..], stored + [n0]);
      var k :| StopsAt(files[1..], stored + [n0], k);
      StopsAtShift(files, stored, stored + [n0], [n0], k);
    } else {
      assert StopsAt(files, stored, 0);
    }
  }

  /** One step of the loop, spelled out case by case. */
  lemma ScanUnfold(files: seq<string>, stored: seq<PdfNote>)
    requires |files| > 0
    ensures HasUrl(stored, PdfUrlOf(files[0])) ==> Scan(files, stored) == Scan(files[1..], stored)
    ensures !HasUrl(stored, PdfUrlOf(files[0])) && TitleOf(files[0]) == "" ==> Scan(files, stored) == ScanResult([], true)
    ensures !HasUrl(stored, PdfUrlOf(files[0])) && TitleOf(files[0]) != "" ==>
      var rest := Scan(files[1..], stored + [AutoNote(files[0])]);
      Scan(files, stored) == ScanResult([AutoNote(files[0])] + rest.created, rest.stopped)
  {
    AutoFieldsValidation(files[0]);
  }

  /** One step of `ScanStopsAtEmptyTitle`: a stop in the tail is a stop one file later in the whole list. */
  lemma StopsAtShift(files: seq<string>, stored: seq<PdfNote>, tailStored: seq<PdfNote>, head: seq<PdfNote>, k: int)
    requires |files| > 0 && StopsAt(files[1..], tailStored, k)
    requires forall n :: n in stored ==> n in tailStored
    requires Scan(files, stored).created == head + Scan(files[1..], tailStored).created
    requires forall n :: n in head ==> n == AutoNote(files[0])
    ensures StopsAt(files, stored, k + 1)
  {
    var tail := Scan(files[1..], tailStored).created;
    forall n | n in head + tail
      ensures exists j :: 0 <= j < k + 1 && n == AutoNote(files[j])
    {
      if n in head {
        assert n == AutoNote(files[0]);
      } else {
        var j :| 0 <= j < k && n == AutoNote(files[1..][j]);
        assert files[j + 1] == files[1..][j];
      }
    }
    assert files[k + 1] == files[1..][k];
  }
}
