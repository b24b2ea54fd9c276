/**
 The edit-project form: the fetched project loaded into form state, and the
 form state turned into the update request.
 */
module EditProjectPage {
  import opened Seqs
  import opened Text
  import opened Schemas
  import opened FormLists

  /** The text fields of the form. */
  datatype FormData = FormData(
    name: string,
    description: string,
    detailedDescription: string,
    githubUrl: string,
    demoUrl: string,
    mediumUrl: string,
    imageUrl: string)

  /** The project as fetched for editing; any field may be missing. */
  datatype Fetched = Fetched(
    name: Option<string>,
    description: Option<string>,
    detailedDescription: Option<string>,
    githubUrl: Option<string>,
    demoUrl: Option<string>,
    mediumUrl: Option<string>,
    imageUrl: Option<string>,
    tags: Option<seq<string>>,
    features: Option<seq<string>>,
    techStack: Option<seq<string>>,
    challenges: Option<seq<string>>,
    outcomes: Option<seq<string>>,
    documentation: Option<string>)

  /** The whole form state. */
  datatype EditForm = EditForm(
    data: FormData,
    tags: InputList,
    features: seq<string>,
    techStack: InputList,
    challenges: seq<string>,
    outcomes: seq<string>,
    documentation: string)

  /** The body of the update request. */
  datatype Submission = Submission(
    data: FormData,
    tags: seq<string>,
    features: seq<string>,
    techStack: seq<string>,
    challenges: seq<string>,
    outcomes: seq<string>,
    documentation: string)

  /** `value || ''`. */
  function OrEmpty(v: Option<string>): (r: string)
    ensures v.Some? ==> r == v.value
    ensures v.None? ==> r == ""
  {
    if v.Some? then v.value else ""
  }

  /**
   The load effect. The text fields and the two tag-like lists take the
   fetched values or their empty defaults; the three row lists get one
   empty row when missing or empty. The two input boxes keep their text.
   */
  function Load(form: EditForm, p: Fetched): (f: EditForm)
    ensures |f.features| > 0 && |f.challenges| > 0 && |f.outcomes| > 0
    ensures f.features == LoadRows(p.features) && f.challenges == LoadRows(p.challenges)
      && f.outcomes == LoadRows(p.outcomes)
    ensures f.data == FormData(
      OrEmpty(p.name), OrEmpty(p.description), OrEmpty(p.detailedDescription),
      OrEmpty(p.githubUrl), OrEmpty(p.demoUrl), OrEmpty(p.mediumUrl), OrEmpty(p.imageUrl))
    ensures f.documentation == OrEmpty(p.documentation)
    ensures f.tags == InputList(ListOrEmpty(p.tags), form.tags.input)
    ensures f.techStack == InputList(ListOrEmpty(p.techStack), form.techStack.input)
  {
    EditForm(
      FormData(
        OrEmpty(p.name), OrEmpty(p.description), OrEmpty(p.detailedDescription),
        OrEmpty(p.githubUrl), OrEmpty(p.demoUrl), OrEmpty(p.mediumUrl), OrEmpty(p.imageUrl)),
      InputList(ListOrEmpty(p.tags), form.tags.input),
      LoadRows(p.features),
      InputList(ListOrEmpty(p.techStack), form.techStack.input),
      LoadRows(p.challenges),
      LoadRows(p.outcomes),
      OrEmpty(p.documentation))
  }

  /** `handleSubmit`: blank rows dropped from the three row lists; everything else sent as it is. */
  function Submit(f: EditForm): (s: Submission)
    ensures s.data == f.data && s.documentation == f.documentation
    ensures s.tags == f.tags.list && s.techStack == f.techStack.list
    ensures forall x :: x in s.features <==> x in f.features && !IsBlank(x)
    ensures forall x :: x in s.challenges <==> x in f.challenges && !IsBlank(x)
    ensures forall x :: x in s.outcomes <==> x in f.outcomes && !IsBlank(x)
    ensures forall i :: 0 <= i < |s.features| ==> multiset(s.features)[s.features[i]] == multiset(f.features)[s.features[i]]
    ensures forall i :: 0 <= i < |s.challenges| ==> multiset(s.challenges)[s.challenges[i]] == multiset(f.challenges)[s.challenges[i]]
    ensures forall i :: 0 <= i < |s.outcomes| ==> multiset(s.outcomes)[s.outcomes[i]] == multiset(f.outcomes)[s.outcomes[i]]
    ensures IsSubsequence(s.features, f.features) && IsSubsequence(s.challenges, f.challenges)
    ensures IsSubsequence(s.outcomes, f.outcomes)
  {
    Submission(
      f.data, f.tags.list, StripBlank(f.features), f.techStack.list,
      StripBlank(f.challenges), StripBlank(f.outcomes), f.documentation)
  }

  predicate NoBlankRows(v: Option<seq<string>>) {
    v.Some? ==> forall x :: x in v.value ==> !IsBlank(x)
  }

  /**
   Saving a project unedited sends back what was fetched: the placeholder
   rows added on load are dropped again on submit, and every missing field
   is sent as its default.
   */
  lemma LoadSubmitRoundTrip(form: EditForm, p: Fetched)
    requires NoBlankRows(p.features) && NoBlankRows(p.challenges) && NoBlankRows(p.outcomes)
    ensures var s := Submit(Load(form, p));
      && s.data == FormData(
        OrEmpty(p.name), OrEmpty(p.description), OrEmpty(p.detailedDescription),
        OrEmpty(p.githubUrl), OrEmpty(p.demoUrl), OrEmpty(p.mediumUrl), OrEmpty(p.imageUrl))
      && s.tags == ListOrEmpty(p.tags) && s.techStack == ListOrEmpty(p.techStack)
      && s.features == ListOrEmpty(p.features)
      && s.challenges == ListOrEmpty(p.challenges)
      && s.outcomes == ListOrEmpty(p.outcomes)
      && s.documentation == OrEmpty(p.documentation)
  {
    LoadThenStrip(p.features);
    LoadThenStrip(p.challenges);
    LoadThenStrip(p.outcomes);
  }

  /** Submitting twice in a row sends the same rows: stripping is idempotent. */
  lemma SubmitStable(f: EditForm)
    ensures var s := Submit(f);
      Submit(f.(features := s.features, challenges := s.challenges, outcomes := s.outcomes)) == s
  {
    StripBlankIdempotent(f.features);
    StripBlankIdempotent(f.challenges);
    StripBlankIdempotent(f.outcomes);
  }
}

/**
 The add-project form's list editing: tags through the input box, and the
 feature rows, which start as one empty row.
 */
module AddProjectPage {
  import opened Seqs
  import opened FormLists

  datatype AddForm = AddForm(tags: InputList, features: seq<string>)

  /** The initial state: no tags, an empty input, one empty feature row. */
  const Initial: AddForm := AddForm(InputList([], ""), [""])

  datatype FormAction = TagEdit(tag: ListAction) | FeatureEdit(row: RowAction)

  function Step(f: AddForm, a: FormAction): AddForm {
    match a
    case TagEdit(t) => f.(tags := ApplyListAction(f.tags, t))
    case FeatureEdit(r) => f.(features := ApplyRowAction(f.features, r))
  }

  function Run(f: AddForm, actions: seq<FormAction>): AddForm
    decreases |actions|
  {
    if |actions| == 0 then f else Run(Step(f, actions[0]), actions[1..])
  }

  predicate Good(f: AddForm) {
    |f.features| > 0 && NoDup(f.tags.list) && Clean(f.tags.list)
  }

  /**
   From the initial state, whatever the user does, there is at least one
   feature row and the tags stay duplicate-free, trimmed and non-empty.
   */
  lemma FormStaysGood(actions: seq<FormAction>)
    ensures Good(Run(Initial, actions))
  {
    RunKeepsGood(Initial, actions);
  }

  lemma {:induction false} RunKeepsGood(f: AddForm, actions: seq<FormAction>)
    requires Good(f)
    ensures Good(Run(f, actions))
    decreases |actions|
  {
    if |actions| > 0 {
      var a := actions[0];
      if a.TagEdit? {
        ListActionsKeepInvariant(f.tags, [a.tag]);
        assert ApplyListActions(f.tags, [a.tag]) == ApplyListAction(f.tags, a.tag);
      }
      RunKeepsGood(Step(f, a), actions[1..]);
    }
  }
}
