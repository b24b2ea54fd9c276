/**
 Character and string primitives shared by the server and the client model.

 JavaScript strings are modelled as `seq<char>`. Case folding is ASCII-only
 (`toLowerCase` on letters A-Z) and white space for `trim` is the ASCII set
 (space, tab, line feed, vertical tab, form feed, carriage return).
 */
module Text {

  predicate IsDigit(c: char) {
    '0' <= c <= '9'
  }

  predicate IsSpace(c: char) {
    c == ' ' || c == '\t' || c == '\n' || c == '\U{000B}' || c == '\U{000C}' || c == '\r'
  }

  predicate AllDigits(s: string) {
    forall i :: 0 <= i < |s| ==> IsDigit(s[i])
  }

  predicate IsUpper(c: char) {
    'A' <= c <= 'Z'
  }

  /** ASCII `toLowerCase` of one character. */
  function LowerChar(c: char): (r: char)
    ensures !IsUpper(r)
    ensures IsUpper(c) ==> r as int == c as int + 32
    ensures !IsUpper(c) ==> r == c
  {
    if IsUpper(c) then (c as int - 'A' as int + 'a' as int) as char else c
  }

  /** `String.prototype.toLowerCase`, ASCII only. */
  function Lower(s: string): (r: string)
    ensures |r| == |s|
    ensures forall i :: 0 <= i < |s| ==> r[i] == LowerChar(s[i])
    ensures forall i :: 0 <= i < |r| ==> !IsUpper(r[i])
  {
    seq(|s|, i requires 0 <= i < |s| => LowerChar(s[i]))
  }

  lemma LowerIdempotent(s: string)
    ensures Lower(Lower(s)) == Lower(s)
  {
  }

  lemma LowerAppend(a: string, b: string)
    ensures Lower(a + b) == Lower(a) + Lower(b)
  {
  }

  predicate StartsWith(s: string, prefix: string) {
    |prefix| <= |s| && s[..|prefix|] == prefix
  }

  predicate EndsWith(s: string, suffix: string) {
    |suffix| <= |s| && s[|s| - |suffix|..] == suffix
  }

  /** Reference definition of `includes`: the needle occurs at some offset. */
  ghost predicate OccursAt(hay: string, needle: string, k: int) {
    0 <= k && k + |needle| <= |hay| && hay[k..k + |needle|] == needle
  }

  /** `String.prototype.includes`, by scanning the hay from the left. */
  predicate Contains(hay: string, needle: string)
    decreases |hay|
  {
    StartsWith(hay, needle) || (|hay| > 0 && Contains(hay[1..], needle))
  }

  lemma {:induction false} ContainsIff(hay: string, needle: string)
    ensures Contains(hay, needle) <==> exists k :: OccursAt(hay, needle, k)
    decreases |hay|
  {
    if Contains(hay, needle) {
      ContainsWitness(hay, needle);
    }
    if exists k :: OccursAt(hay, needle, k) {
      var k :| OccursAt(hay, needle, k);
      ContainsFromOffset(hay, needle, k);
    }
  }

  lemma {:induction false} ContainsWitness(hay: string, needle: string)
    requires Contains(hay, needle)
    ensures exists k :: OccursAt(hay, needle, k)
    decreases |hay|
  {
    if StartsWith(hay, needle) {
      assert OccursAt(hay, needle, 0);
    } else {
      ContainsWitness(hay[1..], needle);
      var k :| OccursAt(hay[1..], needle, k);
      assert hay[k + 1..k + 1 + |needle|] == hay[1..][k..k + |needle|];
      assert OccursAt(hay, needle, k + 1);
    }
  }

  lemma {:induction false} ContainsFromOffset(hay: string, needle: string, k: int)
    requires OccursAt(hay, needle, k)
    ensures Contains(hay, needle)
    decreases k
  {
    if k > 0 {
      assert hay[1..][k - 1..k - 1 + |needle|] == hay[k..k + |needle|];
      ContainsFromOffset(hay[1..], needle, k - 1);
    }
  }

  /** Leading white space removed (`trimStart`). */
  function TrimStart(s: string): (r: string)
    ensures |r| <= |s| && r == s[|s| - |r|..]
    ensures forall i :: 0 <= i < |s| - |r| ==> IsSpace(s[i])
    ensures |r| > 0 ==> !IsSpace(r[0])
  {
    if |s| > 0 && IsSpace(s[0]) then TrimStart(s[1..]) else s
  }

  /** Trailing white space removed (`trimEnd`). */
  function TrimEnd(s: string): (r: string)
    ensures |r| <= |s| && r == s[..|r|]
    ensures forall i :: |r| <= i < |s| ==> IsSpace(s[i])
    ensures |r| > 0 ==> !IsSpace(r[|r| - 1])
  {
    if |s| > 0 && IsSpace(s[|s| - 1]) then TrimEnd(s[..|s| - 1]) else s
  }

  /** `r` sits at offset `k` of `s` and everything around it is white space. */
  ghost predicate PaddedBy(s: string, k: int, r: string) {
    && 0 <= k && k + |r| <= |s| && s[k..k + |r|] == r
    && (forall i :: 0 <= i < k ==> IsSpace(s[i]))
    && (forall i :: k + |r| <= i < |s| ==> IsSpace(s[i]))
  }

  /** `String.prototype.trim`. */
  function Trim(s: string): (r: string)
    ensures |r| > 0 ==> !IsSpace(r[0]) && !IsSpace(r[|r| - 1])
    ensures exists k :: PaddedBy(s, k, r)
  {
    var t := TrimStart(s);
    var r := TrimEnd(t);
    PaddedFromParts(s, t, r);
    r
  }

  /** Stripping spaces from the front and then from the back leaves a padded middle. */
  lemma PaddedFromParts(s: string, t: string, r: string)
    requires |t| <= |s| && t == s[|s| - |t|..]
    requires |r| <= |t| && r == t[..|r|]
    requires forall i :: 0 <= i < |s| - |t| ==> IsSpace(s[i])
    requires forall i :: |r| <= i < |t| ==> IsSpace(t[i])
    ensures PaddedBy(s, |s| - |t|, r)
  {
    var k := |s| - |t|;
    assert s[k..k + |r|] == t[..|r|];
    forall i | k + |r| <= i < |s|
      ensures IsSpace(s[i])
    {
      assert s[i] == t[i - k];
    }
  }

  /** The string is empty or white space only, i.e. `s.trim() === ''`. */
  predicate IsBlank(s: string) {
    Trim(s) == ""
  }

  lemma {:induction false} TrimStartOfTrimmed(s: string)
    requires |s| == 0 || !IsSpace(s[0])
    ensures TrimStart(s) == s
  {
  }

  lemma {:induction false} TrimEndOfTrimmed(s: string)
    requires |s| == 0 || !IsSpace(s[|s| - 1])
    ensures TrimEnd(s) == s
  {
  }

  lemma TrimIdempotent(s: string)
    ensures Trim(Trim(s)) == Trim(s)
  {
    var r := Trim(s);
    TrimStartOfTrimmed(r);
    TrimEndOfTrimmed(r);
  }

  lemma {:induction false} BlankIffAllSpace(s: string)
    ensures IsBlank(s) <==> forall i :: 0 <= i < |s| ==> IsSpace(s[i])
    decreases |s|
  {
    if |s| > 0 && IsSpace(s[0]) {
      BlankIffAllSpace(s[1..]);
      assert TrimStart(s) == TrimStart(s[1..]);
      assert forall i :: 1 <= i < |s| ==> s[i] == s[1..][i - 1];
    }
  }

  // ---------------------------------------------------------------------------
  // Decimal rendering of a non-negative integer, as `String(n)` in JavaScript.

  function DigitChar(d: nat): (c: char)
    requires d < 10
    ensures IsDigit(c)
  {
    "0123456789"[d]
  }

  function DigitValue(c: char): (d: nat)
    requires IsDigit(c)
    ensures d < 10
  {
    c as int - '0' as int
  }

  /** Decimal digits of `n`, most significant first, with no leading zero. */
  function Decimal(n: nat): (r: string)
    ensures |r| > 0 && AllDigits(r)
    ensures |r| > 1 ==> r[0] != '0'
    decreases n
  {
    if n < 10 then [DigitChar(n)] else Decimal(n / 10) + [DigitChar(n % 10)]
  }

  /** Reads a digit string back as a number. */
  function ParseDecimal(s: string): nat
    requires AllDigits(s)
    decreases |s|
  {
    if |s| == 0 then 0 else ParseDecimal(s[..|s| - 1]) * 10 + DigitValue(s[|s| - 1])
  }

  lemma {:induction false} ParseDecimalOfDecimal(n: nat)
    ensures ParseDecimal(Decimal(n)) == n
    decreases n
  {
    if n >= 10 {
      var d := Decimal(n);
      assert d[..|d| - 1] == Decimal(n / 10);
      ParseDecimalOfDecimal(n / 10);
    }
  }

  /** Distinct numbers have distinct decimal renderings. */
  lemma DecimalInjective(a: nat, b: nat)
    ensures Decimal(a) == Decimal(b) ==> a == b
  {
    ParseDecimalOfDecimal(a);
    ParseDecimalOfDecimal(b);
  }
}
