/**
 The list editors of the project forms.

 Tags and tech-stack entries are added from a text input: the trimmed value
 is appended when it is non-empty and not yet listed, and the input is then
 cleared. Features, challenges and outcomes are rows edited in place by
 index; a row's remove button is shown only while the list has more than one
 row.
 */
module FormLists {
  import opened Seqs
  import opened Text

  /** A de-duplicated list together with the text of its input box. */
  datatype InputList = InputList(list: seq<string>, input: string)

  /** Every entry was added through the input: trimmed and non-empty. */
  predicate Clean(list: seq<string>) {
    forall i :: 0 <= i < |list| ==> list[i] != "" && Trim(list[i]) == list[i]
  }

  /** `addTag` / `addTech`. */
  function AddUnique(e: InputList): (r: InputList)
    ensures Trim(e.input) != "" && Trim(e.input) !in e.list ==> r == InputList(e.list + [Trim(e.input)], "")
    ensures Trim(e.input) == "" || Trim(e.input) in e.list ==> r == e
    ensures NoDup(e.list) ==> NoDup(r.list)
    ensures Clean(e.list) ==> Clean(r.list)
  {
    var v := Trim(e.input);
    if v != "" && v !in e.list then
      TrimIdempotent(e.input);
      AppendKeepsInvariant(e.list, v);
      InputList(e.list + [v], "")
    else e
  }

  lemma AppendKeepsInvariant(list: seq<string>, v: string)
    requires v != "" && v !in list && Trim(v) == v
    ensures NoDup(list) ==> NoDup(list + [v])
    ensures Clean(list) ==> Clean(list + [v])
  {
    var r := list + [v];
    assert forall i :: 0 <= i < |list| ==> r[i] == list[i];
  }

  /** Adding the same text twice adds it once. */
  lemma AddUniqueTwice(list: seq<string>, input: string)
    ensures AddUnique(InputList(AddUnique(InputList(list, input)).list, input)).list == AddUnique(InputList(list, input)).list
  {
  }

  /** Removing the value just added restores the list. */
  lemma AddThenRemove(list: seq<string>, input: string)
    requires Trim(input) != "" && Trim(input) !in list
    ensures RemoveAll(AddUnique(InputList(list, input)).list, Trim(input)) == list
  {
    RemoveAllAppended(list, Trim(input));
  }

  /** An add or a remove on a tag-like list. */
  datatype ListAction = Add(typed: string) | Remove(value: string)

  function ApplyListAction(e: InputList, a: ListAction): InputList {
    match a
    case Add(typed) => AddUnique(e.(input := typed))
    case Remove(v) => e.(list := RemoveAll(e.list, v))
  }

  function ApplyListActions(e: InputList, actions: seq<ListAction>): InputList
    decreases |actions|
  {
    if |actions| == 0 then e else ApplyListActions(ApplyListAction(e, actions[0]), actions[1..])
  }

  /** Whatever is typed, added and removed, the list stays duplicate-free and clean. */
  lemma {:induction false} ListActionsKeepInvariant(e: InputList, actions: seq<ListAction>)
    requires NoDup(e.list) && Clean(e.list)
    ensures NoDup(ApplyListActions(e, actions).list) && Clean(ApplyListActions(e, actions).list)
    decreases |actions|
  {
    if |actions| > 0 {
      var next := ApplyListAction(e, actions[0]);
      if actions[0].Remove? {
        RemoveKeepsClean(e.list, actions[0].value);
      }
      ListActionsKeepInvariant(next, actions[1..]);
    }
  }

  /** A remove keeps a clean list clean. */
  lemma RemoveKeepsClean(list: seq<string>, v: string)
    requires Clean(list)
    ensures Clean(RemoveAll(list, v))
  {
    var r := RemoveAll(list, v);
    SubsequenceMembers(r, list);
    forall i | 0 <= i < |r|
      ensures r[i] != "" && Trim(r[i]) == r[i]
    {
      assert r[i] in list;
    }
  }

  /** `addFeature` and its siblings: one empty row appended. */
  function AddRow(rows: seq<string>): (r: seq<string>)
    ensures |r| == |rows| + 1 && r[..|rows|] == rows && r[|rows|] == ""
  {
    rows + [""]
  }

  /** `updateFeature(index, value)`: the row at `index` replaced; an index outside the list changes nothing. */
  function UpdateAt(rows: seq<string>, index: int, value: string): (r: seq<string>)
    ensures |r| == |rows|
    ensures forall j :: 0 <= j < |rows| && j != index ==> r[j] == rows[j]
    ensures 0 <= index < |rows| ==> r[index] == value
    ensures !(0 <= index < |rows|) ==> r == rows
  {
    seq(|rows|, j requires 0 <= j < |rows| => if j == index then value else rows[j])
  }

  /** `removeFeature(index)`: the row at `index` dropped; an index outside the list changes nothing. */
  function RemoveAt<T>(rows: seq<T>, index: int): (r: seq<T>)
    ensures 0 <= index < |rows| ==> |r| == |rows| - 1
    ensures 0 <= index < |rows| ==> forall j :: 0 <= j < index ==> r[j] == rows[j]
    ensures 0 <= index < |rows| ==> forall j :: index <= j < |r| ==> r[j] == rows[j + 1]
    ensures !(0 <= index < |rows|) ==> r == rows
  {
    if 0 <= index < |rows| then rows[..index] + rows[index + 1..] else rows
  }

  /** Reference reading of `rows.filter((_, i) => i !== index)`: walk the rows, skipping position `index`. */
  function DropPosition<T>(rows: seq<T>, index: int): seq<T>
    decreases |rows|
  {
    if |rows| == 0 then []
    else (if index == 0 then [] else [rows[0]]) + DropPosition(rows[1..], index - 1)
  }

  /** The closed form agrees with the position filter for every index. */
  lemma {:induction false} RemoveAtIsPositionFilter<T>(rows: seq<T>, index: int)
    ensures RemoveAt(rows, index) == DropPosition(rows, index)
    decreases |rows|
  {
    if |rows| > 0 {
      RemoveAtIsPositionFilter(rows[1..], index - 1);
      RemoveAtStep(rows, index);
    }
  }

  /** `RemoveAt` follows the same first step as the position filter. */
  lemma RemoveAtStep<T>(rows: seq<T>, index: int)
    requires |rows| > 0
    ensures RemoveAt(rows, index) == (if index == 0 then [] else [rows[0]]) + RemoveAt(rows[1..], index - 1)
  {
    var tail := rows[1..];
    if index == 0 {
      assert rows[..0] + rows[1..] == tail;
    } else if 0 < index < |rows| {
      assert rows[..index] == [rows[0]] + tail[..index - 1];
      assert rows[index + 1..] == tail[index..];
    } else {
      assert rows == [rows[0]] + tail;
    }
  }

  /** An edit of a row list as the form offers it. */
  datatype RowAction = AddRowAction | Update(index: int, value: string) | RemoveRow(index: int)

  /** A remove is offered only while there is more than one row. */
  function ApplyRowAction(rows: seq<string>, a: RowAction): (r: seq<string>)
    ensures |rows| > 0 ==> |r| > 0
  {
    match a
    case AddRowAction => AddRow(rows)
    case Update(i, v) => UpdateAt(rows, i, v)
    case RemoveRow(i) => if |rows| > 1 then RemoveAt(rows, i) else rows
  }

  function ApplyRowActions(rows: seq<string>, actions: seq<RowAction>): seq<string>
    decreases |actions|
  {
    if |actions| == 0 then rows else ApplyRowActions(ApplyRowAction(rows, actions[0]), actions[1..])
  }

  /** A row list that starts non-empty stays non-empty, whatever the edits. */
  lemma {:induction false} RowsNeverEmpty(rows: seq<string>, actions: seq<RowAction>)
    requires |rows| > 0
    ensures |ApplyRowActions(rows, actions)| > 0
    decreases |actions|
  {
    if |actions| > 0 {
      RowsNeverEmpty(ApplyRowAction(rows, actions[0]), actions[1..]);
    }
  }

  /** `list && list.length ? list : ['']`. */
  function LoadRows(v: Option<seq<string>>): (r: seq<string>)
    ensures |r| > 0
    ensures v.Some? && |v.value| > 0 ==> r == v.value
    ensures v.None? || |v.value| == 0 ==> r == [""]
  {
    if v.Some? && |v.value| > 0 then v.value else [""]
  }

  /** `rows.filter(x => x.trim() !== '')`. */
  function StripBlank(rows: seq<string>): (r: seq<string>)
    ensures forall x :: x in r <==> x in rows && !IsBlank(x)
    ensures forall i :: 0 <= i < |r| ==> multiset(r)[r[i]] == multiset(rows)[r[i]]
    ensures IsSubsequence(r, rows)
  {
    FilterByCounts(rows, (x: string) => !IsBlank(x));
    FilterBy(rows, (x: string) => !IsBlank(x))
  }

  /** Stripping twice is stripping once. */
  lemma StripBlankIdempotent(rows: seq<string>)
    ensures StripBlank(StripBlank(rows)) == StripBlank(rows)
  {
    FilterByAll(StripBlank(rows), (x: string) => !IsBlank(x));
  }

  /** A list without blank rows is submitted as it is. */
  lemma StripBlankKeepsFilled(rows: seq<string>)
    requires forall x :: x in rows ==> !IsBlank(x)
    ensures StripBlank(rows) == rows
  {
    FilterByAll(rows, (x: string) => !IsBlank(x));
  }

  /** The placeholder row of a loaded empty list is dropped again on submit. */
  lemma LoadThenStrip(v: Option<seq<string>>)
    requires v.Some? ==> forall x :: x in v.value ==> !IsBlank(x)
    ensures StripBlank(LoadRows(v)) == if v.Some? then v.value else []
  {
    if v.Some? && |v.value| > 0 {
      StripBlankKeepsFilled(v.value);
    } else {
      PlaceholderStripped();
    }
  }

  /** The placeholder row alone is blank and is dropped. */
  lemma PlaceholderStripped()
    ensures StripBlank([""]) == []
  {
    BlankIffAllSpace("");
    FilterByNone([""], (x: string) => !IsBlank(x));
  }
}
