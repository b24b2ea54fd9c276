/**
 The search-and-tag filtering shared by the project index (both copies) and
 the revision-notes page.

 Each listed item is seen through an `Entry`: its display name (project name
 or note title), its description and its tags. The search is a
 case-insensitive substring match on any of the three; the tag filter keeps
 items having at least one selected tag, compared exactly. Both are applied,
 one after the other.
 */
module ListFilter {
  import opened Seqs
  import opened Text

  datatype Entry = Entry(name: string, description: string, tags: seq<string>)

  /** `x.toLowerCase().includes(term.toLowerCase())`. */
  predicate MatchesText(x: string, term: string) {
    Contains(Lower(x), Lower(term))
  }

  /** The search predicate: name, description, or some tag matches the term. */
  predicate MatchesSearch(e: Entry, term: string) {
    || MatchesText(e.name, term)
    || MatchesText(e.description, term)
    || exists i :: 0 <= i < |e.tags| && MatchesText(e.tags[i], term)
  }

  /** `selectedTags.some(tag => item.tags.includes(tag))`. */
  predicate MatchesTags(e: Entry, selected: seq<string>) {
    exists t :: t in selected && t in e.tags
  }

  /** What an item must satisfy to be listed: the search (when non-empty) and the tags (when any). */
  predicate Passes(e: Entry, term: string, selected: seq<string>) {
    (term == "" || MatchesSearch(e, term)) && (|selected| == 0 || MatchesTags(e, selected))
  }

  /** The filter effect: first the search, then the tag filter. */
  function Filter<T(!new)>(items: seq<T>, view: T -> Entry, term: string, selected: seq<string>): (r: seq<T>)
    ensures forall x :: x in r <==> x in items && Passes(view(x), term, selected)
    ensures forall i :: 0 <= i < |r| ==> multiset(r)[r[i]] == multiset(items)[r[i]]
    ensures IsSubsequence(r, items)
    ensures term == "" && |selected| == 0 ==> r == items
  {
    var afterSearch := if term != "" then FilterBy(items, x => MatchesSearch(view(x), term)) else items;
    var r := if |selected| > 0 then FilterBy(afterSearch, x => MatchesTags(view(x), selected)) else afterSearch;
    FilterIsOnePass(items, view, term, selected);
    FilterByCounts(items, x => Passes(view(x), term, selected));
    r
  }

  /** The two passes are one pass by the conjunction of both predicates. */
  lemma FilterIsOnePass<T(!new)>(items: seq<T>, view: T -> Entry, term: string, selected: seq<string>)
    ensures
      var afterSearch := if term != "" then FilterBy(items, x => MatchesSearch(view(x), term)) else items;
      var r := if |selected| > 0 then FilterBy(afterSearch, x => MatchesTags(view(x), selected)) else afterSearch;
      r == FilterBy(items, x => Passes(view(x), term, selected))
  {
    var s := (x: T) => MatchesSearch(view(x), term);
    var g := (x: T) => MatchesTags(view(x), selected);
    var p := (x: T) => Passes(view(x), term, selected);
    if term != "" && |selected| > 0 {
      FilterByTwice(items, s, g);
      FilterByExt(items, (x: T) => s(x) && g(x), p);
    } else if term != "" {
      FilterByExt(items, s, p);
    } else if |selected| > 0 {
      FilterByExt(items, g, p);
    } else {
      FilterByAll(items, p);
    }
  }

  /** Filtering by two predicates that agree everywhere gives the same list. */
  lemma {:induction false} FilterByExt<T(!new)>(xs: seq<T>, p: T -> bool, q: T -> bool)
    requires forall x :: p(x) == q(x)
    ensures FilterBy(xs, p) == FilterBy(xs, q)
    decreases |xs|
  {
    if |xs| > 0 {
      FilterByExt(xs[1..], p, q);
    }
  }

  /**
   Adding a tag to a non-empty selection never removes a listed item: the old
   result is an ordered part of the new one.
   */
  lemma AddingTagWidens<T(!new)>(items: seq<T>, view: T -> Entry, term: string, selected: seq<string>, t: string)
    requires |selected| > 0
    ensures IsSubsequence(Filter(items, view, term, selected), Filter(items, view, term, selected + [t]))
  {
    var p := (x: T) => Passes(view(x), term, selected);
    var q := (x: T) => Passes(view(x), term, selected + [t]);
    assert forall x :: p(x) ==> q(x) by {
      forall x | p(x)
        ensures q(x)
      {
        var u :| u in selected && u in view(x).tags;
        assert u in selected + [t];
      }
    }
    FilterIsOnePass(items, view, term, selected);
    FilterIsOnePass(items, view, term, selected + [t]);
    FilterByMonotone(items, p, q);
  }

  /** The search ignores the letter case of the term. */
  lemma SearchIgnoresTermCase(e: Entry, term: string)
    ensures MatchesSearch(e, term) == MatchesSearch(e, Lower(term))
  {
    LowerIdempotent(term);
  }

  /** `toggleTag`: drop the tag when selected, append it otherwise. */
  function ToggleTag(selected: seq<string>, tag: string): (r: seq<string>)
    ensures tag in r <==> tag !in selected
    ensures forall u :: u != tag ==> (u in r <==> u in selected)
    ensures NoDup(selected) ==> NoDup(r)
  {
    if tag in selected then RemoveAll(selected, tag) else selected + [tag]
  }

  /** Toggling a tag that is not selected, twice, restores the exact selection. */
  lemma ToggleTwiceRestores(selected: seq<string>, tag: string)
    requires tag !in selected
    ensures ToggleTag(ToggleTag(selected, tag), tag) == selected
  {
    RemoveAllAppended(selected, tag);
  }

  /** The tags of all items, in item order. */
  function AllTagsFlat<T>(items: seq<T>, view: T -> Entry): seq<string> {
    Concat(seq(|items|, i requires 0 <= i < |items| => view(items[i]).tags))
  }

  /** `Array.from(new Set(items.flatMap(x => x.tags)))`. */
  function AllTags<T>(items: seq<T>, view: T -> Entry): (r: seq<string>)
    ensures NoDup(r)
    ensures forall t :: t in r <==> exists i :: 0 <= i < |items| && t in view(items[i]).tags
    ensures forall t :: t in r <==> t in AllTagsFlat(items, view)
    ensures forall i, j :: 0 <= i < j < |r| ==>
      FirstIndex(AllTagsFlat(items, view), r[i]) < FirstIndex(AllTagsFlat(items, view), r[j])
  {
    var lists := seq(|items|, i requires 0 <= i < |items| => view(items[i]).tags);
    assert forall i :: 0 <= i < |items| ==> lists[i] == view(items[i]).tags;
    Dedup(AllTagsFlat(items, view))
  }
}
