/**
 Sequence operations the source performs through JavaScript array methods:
 `filter`, `flatMap`, `includes`, `Array.from(new Set(...))`, `slice`.
 */
module Seqs {

  /** An optional value: JavaScript `undefined` is `None`. */
  datatype Option<T> = None | Some(value: T)

  predicate NoDup<T(==)>(xs: seq<T>) {
    forall i, j :: 0 <= i < j < |xs| ==> xs[i] != xs[j]
  }

  /** `xs` can be obtained from `ys` by deleting elements, keeping the order. */
  predicate IsSubsequence<T(==)>(xs: seq<T>, ys: seq<T>)
    decreases |ys|
  {
    if |xs| == 0 then true
    else if |ys| == 0 then false
    else if xs[0] == ys[0] then IsSubsequence(xs[1..], ys[1..])
    else IsSubsequence(xs, ys[1..])
  }

  lemma {:induction false} SubsequenceOfTail<T(!new)>(xs: seq<T>, ys: seq<T>)
    requires |ys| > 0 && IsSubsequence(xs, ys[1..])
    ensures IsSubsequence(xs, ys)
    decreases |ys|, 0
  {
    if |xs| > 0 && xs[0] == ys[0] {
      SubsequenceDropHead(xs, ys[1..]);
    }
  }

  lemma {:induction false} SubsequenceDropHead<T(!new)>(xs: seq<T>, zs: seq<T>)
    requires |xs| > 0 && IsSubsequence(xs, zs)
    ensures IsSubsequence(xs[1..], zs)
    decreases |zs|, 1
  {
    if xs[0] == zs[0] {
      SubsequenceOfTail(xs[1..], zs);
    } else {
      SubsequenceDropHead(xs, zs[1..]);
      SubsequenceOfTail(xs[1..], zs);
    }
  }

  lemma {:induction false} SubsequenceMembers<T(!new)>(xs: seq<T>, ys: seq<T>)
    requires IsSubsequence(xs, ys)
    ensures forall x :: x in xs ==> x in ys
    ensures |xs| <= |ys|
    decreases |ys|
  {
    if |xs| > 0 {
      assert xs == [xs[0]] + xs[1..];
      if xs[0] == ys[0] {
        assert ys == [ys[0]] + ys[1..];
        SubsequenceMembers(xs[1..], ys[1..]);
      } else {
        SubsequenceMembers(xs, ys[1..]);
      }
    }
  }

  lemma {:induction false} SubsequenceReflexive<T(!new)>(xs: seq<T>)
    ensures IsSubsequence(xs, xs)
    decreases |xs|
  {
    if |xs| > 0 {
      SubsequenceReflexive(xs[1..]);
    }
  }

  /** `Array.prototype.filter`. */
  function FilterBy<T(!new)>(xs: seq<T>, p: T -> bool): (r: seq<T>)
    ensures forall x :: x in r <==> x in xs && p(x)
    ensures IsSubsequence(r, xs)
    decreases |xs|
  {
    if |xs| == 0 then []
    else
      var rest := FilterBy(xs[1..], p);
      if p(xs[0]) then
        assert ([xs[0]] + rest)[1..] == rest;
        [xs[0]] + rest
      else
        SubsequenceOfTail(rest, xs);
        rest
  }

  /** Filtering keeps every element exactly when all of them pass. */
  lemma {:induction false} FilterByAll<T(!new)>(xs: seq<T>, p: T -> bool)
    ensures FilterBy(xs, p) == xs <==> forall x :: x in xs ==> p(x)
    decreases |xs|
  {
    if |xs| > 0 {
      FilterByAll(xs[1..], p);
      if !p(xs[0]) {
        SubsequenceMembers(FilterBy(xs[1..], p), xs[1..]);
      }
    }
  }

  /** The filter keeps every copy of an element it keeps, and no copy of one it drops. */
  lemma {:induction false} FilterByCounts<T(!new)>(xs: seq<T>, p: T -> bool)
    ensures forall x :: multiset(FilterBy(xs, p))[x] == if p(x) then multiset(xs)[x] else 0
    decreases |xs|
  {
    if |xs| > 0 {
      FilterByCounts(xs[1..], p);
      assert xs == [xs[0]] + xs[1..];
    }
  }

  lemma {:induction false} FilterByNone<T(!new)>(xs: seq<T>, p: T -> bool)
    requires forall x :: x in xs ==> !p(x)
    ensures FilterBy(xs, p) == []
    decreases |xs|
  {
    if |xs| > 0 {
      FilterByNone(xs[1..], p);
    }
  }

  /** Two successive filters are one filter by the conjunction. */
  lemma {:induction false} FilterByTwice<T(!new)>(xs: seq<T>, p: T -> bool, q: T -> bool)
    ensures FilterBy(FilterBy(xs, p), q) == FilterBy(xs, x => p(x) && q(x))
    decreases |xs|
  {
    if |xs| > 0 {
      FilterByTwice(xs[1..], p, q);
    }
  }

  /** A weaker predicate keeps at least the same elements, in the same order. */
  lemma {:induction false} FilterByMonotone<T(!new)>(xs: seq<T>, p: T -> bool, q: T -> bool)
    requires forall x :: p(x) ==> q(x)
    ensures IsSubsequence(FilterBy(xs, p), FilterBy(xs, q))
    decreases |xs|
  {
    if |xs| > 0 {
      var rp := FilterBy(xs[1..], p);
      var rq := FilterBy(xs[1..], q);
      FilterByMonotone(xs[1..], p, q);
      if p(xs[0]) {
        assert ([xs[0]] + rp)[1..] == rp;
        assert ([xs[0]] + rq)[1..] == rq;
      } else if q(xs[0]) {
        assert ([xs[0]] + rq)[1..] == rq;
      }
    }
  }

  /** `xs.filter(x => x !== v)`: every occurrence of `v` removed. */
  function RemoveAll<T(==,!new)>(xs: seq<T>, v: T): (r: seq<T>)
    ensures v !in r
    ensures forall u :: u != v ==> (u in r <==> u in xs)
    ensures forall u :: u != v ==> multiset(r)[u] == multiset(xs)[u]
    ensures IsSubsequence(r, xs)
    ensures NoDup(xs) ==> NoDup(r)
  {
    FilterByCounts(xs, x => x != v);
    if NoDup(xs) then
      FilterByNoDup(xs, x => x != v);
      FilterBy(xs, x => x != v)
    else
      FilterBy(xs, x => x != v)
  }

  lemma {:induction false} RemoveAllAbsent<T(!new)>(xs: seq<T>, v: T)
    requires v !in xs
    ensures RemoveAll(xs, v) == xs
  {
    FilterByAll(xs, x => x != v);
  }

  lemma {:induction false} FilterByAppend<T(!new)>(xs: seq<T>, ys: seq<T>, p: T -> bool)
    ensures FilterBy(xs + ys, p) == FilterBy(xs, p) + FilterBy(ys, p)
    decreases |xs|
  {
    if |xs| > 0 {
      assert (xs + ys)[1..] == xs[1..] + ys;
      FilterByAppend(xs[1..], ys, p);
    } else {
      assert xs + ys == ys;
    }
  }

  /** Removing a value that was appended to a list without it restores the list. */
  lemma RemoveAllAppended<T(!new)>(xs: seq<T>, v: T)
    requires v !in xs
    ensures RemoveAll(xs + [v], v) == xs
  {
    FilterByAppend(xs, [v], x => x != v);
    RemoveAllAbsent(xs, v);
  }

  lemma {:induction false} FilterByNoDup<T(!new)>(xs: seq<T>, p: T -> bool)
    requires NoDup(xs)
    ensures NoDup(FilterBy(xs, p))
    decreases |xs|
  {
    if |xs| > 0 {
      FilterByNoDup(xs[1..], p);
    }
  }

  /** `xs.flatMap(...)` once the mapping is applied: the lists concatenated. */
  function Concat<T(!new)>(xss: seq<seq<T>>): (r: seq<T>)
    ensures forall x :: x in r <==> exists i :: 0 <= i < |xss| && x in xss[i]
    decreases |xss|
  {
    if |xss| == 0 then []
    else
      var r := Concat(xss[1..]);
      assert forall i :: 1 <= i < |xss| ==> xss[i] == xss[1..][i - 1];
      assert forall x :: x in r ==> exists i :: 0 <= i < |xss| - 1 && x in xss[1..][i];
      xss[0] + r
  }

  /** Index of the first occurrence of `x`. */
  function FirstIndex<T(==)>(xs: seq<T>, x: T): (k: nat)
    requires x in xs
    ensures k < |xs| && xs[k] == x
    ensures forall j :: 0 <= j < k ==> xs[j] != x
  {
    if xs[0] == x then 0 else 1 + FirstIndex(xs[1..], x)
  }

  /**
   `Array.from(new Set(xs))`: a JavaScript `Set` remembers insertion order, so
   each distinct value appears once, at the place of its first occurrence.
   */
  function Dedup<T(==,!new)>(xs: seq<T>): (r: seq<T>)
    ensures NoDup(r)
    ensures forall x :: x in r <==> x in xs
    ensures forall i, j :: 0 <= i < j < |r| ==> FirstIndex(xs, r[i]) < FirstIndex(xs, r[j])
    decreases |xs|
  {
    if |xs| == 0 then []
    else
      var d := Dedup(xs[..|xs| - 1]);
      var r := if xs[|xs| - 1] in d then d else d + [xs[|xs| - 1]];
      DedupStep(xs, d);
      r
  }

  /** The three promises of `Dedup`, for `r` as the de-duplication of `xs`. */
  ghost predicate DedupOf<T(!new)>(xs: seq<T>, r: seq<T>) {
    && NoDup(r)
    && (forall x :: x in r <==> x in xs)
    && (forall i, j :: 0 <= i < j < |r| ==> FirstIndex(xs, r[i]) < FirstIndex(xs, r[j]))
  }

  /** Keeping the last element exactly when it is new extends a de-duplication of the prefix. */
  lemma DedupStep<T(!new)>(xs: seq<T>, d: seq<T>)
    requires |xs| > 0 && DedupOf(xs[..|xs| - 1], d)
    ensures DedupOf(xs, if xs[|xs| - 1] in d then d else d + [xs[|xs| - 1]])
  {
    var init := xs[..|xs| - 1];
    var last := xs[|xs| - 1];
    assert xs == init + [last];
    FirstIndexOfPrefix(init, xs);
    if last in d {
      DedupKeep(xs, init, d);
    } else {
      DedupAppend(xs, init, d);
    }
  }

  lemma DedupKeep<T(!new)>(xs: seq<T>, init: seq<T>, d: seq<T>)
    requires |xs| > 0 && xs == init + [xs[|xs| - 1]] && DedupOf(init, d) && xs[|xs| - 1] in d
    requires forall x :: x in init ==> FirstIndex(init, x) == FirstIndex(xs, x)
    ensures DedupOf(xs, d)
  {
    forall x
      ensures x in d <==> x in xs
    {
      assert x in xs <==> x in init || x == xs[|xs| - 1];
    }
    forall i, j | 0 <= i < j < |d|
      ensures FirstIndex(xs, d[i]) < FirstIndex(xs, d[j])
    {
      assert FirstIndex(init, d[i]) < FirstIndex(init, d[j]);
    }
  }

  lemma DedupAppend<T(!new)>(xs: seq<T>, init: seq<T>, d: seq<T>)
    requires |xs| > 0 && xs == init + [xs[|xs| - 1]] && DedupOf(init, d) && xs[|xs| - 1] !in d
    requires forall x :: x in init ==> FirstIndex(init, x) == FirstIndex(xs, x)
    ensures DedupOf(xs, d + [xs[|xs| - 1]])
  {
    var last := xs[|xs| - 1];
    AppendNew(d, last);
    forall x
      ensures x in d + [last] <==> x in xs
    {
      assert x in xs <==> x in init || x == last;
    }
    LastFirstIndex(xs, init);
    DedupAppendOrder(xs, init, d, d + [last]);
  }

  /** The order half of `DedupAppend`: the new last element has the largest first index. */
  lemma DedupAppendOrder<T(!new)>(xs: seq<T>, init: seq<T>, d: seq<T>, r: seq<T>)
    requires |xs| > 0 && xs == init + [xs[|xs| - 1]] && DedupOf(init, d)
    requires forall x :: x in init ==> FirstIndex(init, x) == FirstIndex(xs, x)
    requires xs[|xs| - 1] in xs && FirstIndex(xs, xs[|xs| - 1]) == |xs| - 1
    requires r == d + [xs[|xs| - 1]] && forall x :: x in r ==> x in xs
    ensures forall i, j :: 0 <= i < j < |r| ==> FirstIndex(xs, r[i]) < FirstIndex(xs, r[j])
  {
    forall i, j | 0 <= i < j < |r|
      ensures FirstIndex(xs, r[i]) < FirstIndex(xs, r[j])
    {
      assert r[i] == d[i] && d[i] in init;
      assert FirstIndex(init, d[i]) < |init|;
      if j < |d| {
        assert r[j] == d[j] && d[j] in init;
        assert FirstIndex(init, d[i]) < FirstIndex(init, d[j]);
      }
    }
  }

  /** Appending a new element keeps a list duplicate-free. */
  lemma AppendNew<T>(d: seq<T>, v: T)
    requires NoDup(d) && v !in d
    ensures NoDup(d + [v])
  {
    var r := d + [v];
    assert forall i :: 0 <= i < |d| ==> r[i] == d[i];
  }

  /** An element that occurs only last has its first occurrence last. */
  lemma LastFirstIndex<T>(xs: seq<T>, init: seq<T>)
    requires |xs| > 0 && xs == init + [xs[|xs| - 1]] && xs[|xs| - 1] !in init
    ensures FirstIndex(xs, xs[|xs| - 1]) == |xs| - 1
  {
    assert forall i :: 0 <= i < |init| ==> xs[i] == init[i];
  }

  lemma FirstIndexOfPrefix<T(!new)>(init: seq<T>, xs: seq<T>)
    requires |xs| > 0 && init == xs[..|xs| - 1]
    ensures forall x :: x in init ==> FirstIndex(init, x) == FirstIndex(xs, x)
  {
    forall x | x in init
      ensures FirstIndex(init, x) == FirstIndex(xs, x)
    {
      var a := FirstIndex(init, x);
      var b := FirstIndex(xs, x);
      assert xs[a] == x;
    }
  }
}
