/**
 Naming of stored PDF files: the disk-storage rule that names an upload, the
 public URL under which a stored file is served, and the title the
 reconciliation pass derives back from a stored file name.
 */
module Uploads {
  import opened Text

  /** Public path prefix of a stored PDF. */
  const UrlPrefix: string := "/uploads/pdfs/"

  /** The extension that marks a PDF, compared case-insensitively. */
  const PdfExtension: string := ".pdf"

  /** Upload naming rule: the upload time in milliseconds, a hyphen, the client's file name. */
  function StoredName(now: nat, original: string): (r: string)
    ensures EndsWith(r, original)
    ensures StartsWith(r, Decimal(now) + "-")
  {
    Decimal(now) + "-" + original
  }

  /** The URL a stored file is reachable under, `/uploads/pdfs/<filename>`. */
  function PdfUrlOf(filename: string): (url: string)
    ensures StartsWith(url, UrlPrefix) && url[|UrlPrefix|..] == filename
  {
    UrlPrefix + filename
  }

  lemma PdfUrlInjective(a: string, b: string)
    ensures PdfUrlOf(a) == PdfUrlOf(b) ==> a == b
  {
    if PdfUrlOf(a) == PdfUrlOf(b) {
      assert a == PdfUrlOf(a)[|UrlPrefix|..];
    }
  }

  /** `file.toLowerCase().endsWith('.pdf')`. */
  predicate IsPdfName(name: string) {
    EndsWith(Lower(name), PdfExtension)
  }

  /** Number of decimal digits at the start of `s`. */
  function LeadingDigits(s: string): (k: nat)
    ensures k <= |s| && AllDigits(s[..k])
    ensures k < |s| ==> !IsDigit(s[k])
  {
    if |s| > 0 && IsDigit(s[0]) then
      var k := 1 + LeadingDigits(s[1..]);
      assert forall i :: 1 <= i < k ==> s[..k][i] == s[1..][..k - 1][i - 1];
      k
    else 0
  }

  /** The regular expression `^\d+-` matches `s` with its hyphen at index `k`. */
  ghost predicate TimestampPrefixAt(s: string, k: int) {
    1 <= k < |s| && AllDigits(s[..k]) && s[k] == '-'
  }

  /** `s.replace(/^\d+-/, '')`: one leading run of digits and its hyphen removed. */
  function StripTimestamp(s: string): (r: string)
    ensures forall k :: TimestampPrefixAt(s, k) ==> r == s[k + 1..]
    ensures (forall k :: !TimestampPrefixAt(s, k)) ==> r == s
  {
    var k := LeadingDigits(s);
    if 0 < k < |s| && s[k] == '-' then
      assert TimestampPrefixAt(s, k);
      s[k + 1..]
    else
      s
  }

  lemma LowerSuffix(s: string, n: nat)
    requires n <= |s|
    ensures Lower(s[|s| - n..]) == Lower(s)[|s| - n..]
  {
  }

  /** `s.replace(/\.pdf$/i, '')`: one trailing `.pdf`, in any letter case, removed. */
  function StripPdfExtension(s: string): (r: string)
    ensures IsPdfName(s) ==> r == s[..|s| - |PdfExtension|]
    ensures !IsPdfName(s) ==> r == s
  {
    if |s| < |PdfExtension| then s
    else
      LowerSuffix(s, |PdfExtension|);
      if Lower(s[|s| - |PdfExtension|..]) == PdfExtension then s[..|s| - |PdfExtension|] else s
  }

  /**
   Title of an auto-imported note: timestamp prefix and `.pdf` removed. The
   title is a run of the file name: what is left after the prefix, cut short
   by at most the extension.
   */
  function TitleOf(filename: string): (r: string)
    ensures var t := StripTimestamp(filename);
      && |t| <= |filename| && t == filename[|filename| - |t|..]
      && |t| - |PdfExtension| <= |r| <= |t| && r == t[..|r|]
  {
    StripPdfExtension(StripTimestamp(filename))
  }

  /** A stored name keeps the client's file name as its suffix, so a PDF stays a PDF. */
  lemma StoredNameKeepsPdf(now: nat, original: string)
    ensures IsPdfName(original) ==> IsPdfName(StoredName(now, original))
  {
    var s := StoredName(now, original);
    LowerAppend(Decimal(now) + "-", original);
    assert Lower(s) == Lower(Decimal(now) + "-") + Lower(original);
  }

  /** The digits of the timestamp are exactly the leading digit run of a stored name. */
  lemma StoredNameTimestampPrefix(now: nat, original: string)
    ensures TimestampPrefixAt(StoredName(now, original), |Decimal(now)|)
    ensures StripTimestamp(StoredName(now, original)) == original
  {
    var d := Decimal(now);
    var s := StoredName(now, original);
    assert s == d + ("-" + original);
    assert s[..|d|] == d;
    assert s[|d|] == '-';
    assert s[|d| + 1..] == original;
    assert TimestampPrefixAt(s, |d|);
  }

  /**
   Naming round trip: the title reconciliation derives from a stored name is
   the client's file name without its `.pdf`, even when that name itself
   begins with digits and a hyphen.
   */
  lemma TitleOfStoredName(now: nat, original: string)
    ensures TitleOf(StoredName(now, original)) == StripPdfExtension(original)
  {
    StoredNameTimestampPrefix(now, original);
  }

  /** Two uploads get the same stored name only with the same time and the same file name. */
  lemma StoredNameInjective(t1: nat, o1: string, t2: nat, o2: string)
    ensures StoredName(t1, o1) == StoredName(t2, o2) ==> t1 == t2 && o1 == o2
  {
    if StoredName(t1, o1) == StoredName(t2, o2) {
      var s := StoredName(t1, o1);
      StoredNameTimestampPrefix(t1, o1);
      StoredNameTimestampPrefix(t2, o2);
      var k1, k2 := |Decimal(t1)|, |Decimal(t2)|;
      assert Decimal(t1) == s[..k1] == Decimal(t2);
      DecimalInjective(t1, t2);
    }
  }

  /** The extension is already lower case. */
  lemma PdfExtensionIsLower()
    ensures Lower(PdfExtension) == PdfExtension
  {
    var l := Lower(PdfExtension);
    assert l[0] == '.' && l[1] == 'p' && l[2] == 'd' && l[3] == 'f';
  }

  /** A digit prefix, a hyphen, a base name and `.pdf` give back the base name as title. */
  lemma TitleOfTimestamped(digits: string, base: string)
    requires |digits| > 0 && AllDigits(digits)
    ensures TitleOf(digits + "-" + base + PdfExtension) == base
  {
    var s := digits + "-" + base + PdfExtension;
    assert s[..|digits|] == digits;
    assert TimestampPrefixAt(s, |digits|);
    var t := StripTimestamp(s);
    assert t == base + PdfExtension;
    assert t[|t| - |PdfExtension|..] == PdfExtension;
    PdfExtensionIsLower();
  }

  /** The worked example: `1700000000000-Notes.pdf` is titled `Notes`. */
  lemma TitleExample()
    ensures TitleOf("1700000000000-Notes.pdf") == "Notes"
  {
    var d := "1700000000000";
    assert AllDigits(d);
    TitleOfTimestamped(d, "Notes");
    assert d + "-" + "Notes" + PdfExtension == "1700000000000-Notes.pdf";
  }
}
