/**
 The projects as the pages see them: the view record, the record the API
 returns, and the mapping between the two.

 In the API record the three lists `techStack`, `challenges` and `outcomes`
 may be absent at run time even though they are typed as arrays; the mapper
 guards them with `||`. An empty array is truthy, so only an absent list
 takes the fallback.
 */
module ProjectView {
  import opened Seqs

  /** The view record of a project. An id that is missing or empty is `""`. */
  datatype Project = Project(
    id: string,
    name: string,
    description: string,
    tags: seq<string>,
    githubUrl: Option<string>,
    demoUrl: Option<string>,
    mediumUrl: Option<string>,
    imageUrl: string,
    detailedDescription: string,
    features: seq<string>,
    techStack: seq<string>,
    challenges: seq<string>,
    outcomes: seq<string>)

  /** A project as the API returns it; `objectId` is the document's `_id`. */
  datatype ApiProject = ApiProject(
    objectId: string,
    name: string,
    description: string,
    detailedDescription: string,
    githubUrl: Option<string>,
    demoUrl: Option<string>,
    mediumUrl: Option<string>,
    imageUrl: string,
    tags: seq<string>,
    features: seq<string>,
    techStack: Option<seq<string>>,
    challenges: Option<seq<string>>,
    outcomes: Option<seq<string>>,
    createdAt: string,
    updatedAt: string)

  /** `mapApiProjectToProject`. */
  function MapApiProjectToProject(a: ApiProject): (p: Project)
    ensures p.id == a.objectId
    ensures p.name == a.name && p.description == a.description && p.tags == a.tags
    ensures p.githubUrl == a.githubUrl && p.demoUrl == a.demoUrl && p.mediumUrl == a.mediumUrl
    ensures p.imageUrl == a.imageUrl && p.detailedDescription == a.detailedDescription
    ensures p.features == a.features
    ensures a.techStack.Some? ==> p.techStack == a.techStack.value
    ensures a.techStack.None? ==> p.techStack == a.tags
    ensures p.challenges == (if a.challenges.Some? then a.challenges.value else [])
    ensures p.outcomes == (if a.outcomes.Some? then a.outcomes.value else [])
  {
    Project(
      a.objectId, a.name, a.description, a.tags,
      a.githubUrl, a.demoUrl, a.mediumUrl,
      a.imageUrl, a.detailedDescription, a.features,
      if a.techStack.Some? then a.techStack.value else a.tags,
      if a.challenges.Some? then a.challenges.value else [],
      if a.outcomes.Some? then a.outcomes.value else [])
  }

  /** The API record a view record comes from when every list is present. */
  function ToApi(p: Project, createdAt: string, updatedAt: string): ApiProject {
    ApiProject(
      p.id, p.name, p.description, p.detailedDescription,
      p.githubUrl, p.demoUrl, p.mediumUrl, p.imageUrl,
      p.tags, p.features, Some(p.techStack), Some(p.challenges), Some(p.outcomes),
      createdAt, updatedAt)
  }

  /** With every list present the mapping loses nothing but the two timestamps. */
  lemma MapRoundTrip(p: Project, createdAt: string, updatedAt: string)
    ensures MapApiProjectToProject(ToApi(p, createdAt, updatedAt)) == p
  {
  }

  /**
   The mapping forgets only the timestamps and the difference between an
   absent list and its default: two API records map to the same view
   record exactly when they agree after the defaults are filled in.
   */
  lemma MapAgreesOnlyWithDefaults(a: ApiProject, b: ApiProject)
    requires a.techStack.Some? && b.techStack.Some?
    requires a.challenges.Some? && b.challenges.Some? && a.outcomes.Some? && b.outcomes.Some?
    ensures MapApiProjectToProject(a) == MapApiProjectToProject(b) <==>
      a.(createdAt := b.createdAt, updatedAt := b.updatedAt) == b
  {
  }

  /** A present but empty tech stack stays empty: `[]` is truthy, so the tags are not copied in. */
  lemma EmptyTechStackKept(a: ApiProject)
    requires a.techStack == Some([]) && |a.tags| > 0
    ensures MapApiProjectToProject(a).techStack == []
    ensures MapApiProjectToProject(a).techStack != MapApiProjectToProject(a.(techStack := None)).techStack
  {
  }
}

/**
 The project card: at most three tag badges, an overflow badge counting the
 rest, the details link, and the external links shown only when set.
 */
module ProjectCard {
  import opened Seqs
  import opened ProjectView

  const MaxBadges: nat := 3
  const DetailPrefix: string := "/project/"

  /** What the card renders, leaving out layout. */
  datatype Card = Card(
    badges: seq<string>,
    overflow: Option<nat>,
    detailLink: string,
    github: Option<string>,
    demo: Option<string>,
    medium: Option<string>)

  /** `tags.slice(0, 3)`. */
  function ShownTags(tags: seq<string>): (r: seq<string>)
    ensures |r| == if |tags| < MaxBadges then |tags| else MaxBadges
    ensures r == tags[..|r|]
  {
    if |tags| <= MaxBadges then tags else tags[..MaxBadges]
  }

  /** The `+n` badge: present exactly when there are more than three tags. */
  function Overflow(tags: seq<string>): (r: Option<nat>)
    ensures r.Some? <==> |tags| > MaxBadges
    ensures r.Some? ==> |ShownTags(tags)| + r.value == |tags|
  {
    if |tags| > MaxBadges then Some(|tags| - MaxBadges) else None
  }

  /** `url && <a href={url}>`: a link rendered only for a present, non-empty URL. */
  function LinkIf(url: Option<string>): (r: Option<string>)
    ensures r.Some? <==> url.Some? && url.value != ""
    ensures r.Some? ==> r.value == url.value
  {
    if url.Some? && url.value != "" then url else None
  }

  /** The link to a project's detail page. */
  function DetailLink(id: string): (r: string)
    ensures |r| == |DetailPrefix| + |id|
    ensures r[..|DetailPrefix|] == DetailPrefix && r[|DetailPrefix|..] == id
  {
    DetailPrefix + id
  }

  /** The card rendered for a project. */
  function CardOf(p: Project): (c: Card) {
    Card(ShownTags(p.tags), Overflow(p.tags), DetailLink(p.id), LinkIf(p.githubUrl), LinkIf(p.demoUrl), LinkIf(p.mediumUrl))
  }

  /** The project field an external link shows, as it would be rendered: only when non-empty. */
  predicate ShowsLink(link: Option<string>, url: Option<string>) {
    && (link.Some? <==> url.Some? && url.value != "")
    && (link.Some? ==> link == url)
  }

  /** The card shows exactly the external links whose URL is set and non-empty, each pointing at its URL. */
  lemma CardLinks(p: Project)
    ensures ShowsLink(CardOf(p).github, p.githubUrl)
    ensures ShowsLink(CardOf(p).demo, p.demoUrl)
    ensures ShowsLink(CardOf(p).medium, p.mediumUrl)
  {
  }

  /**
   The card of a project fetched from the API: its badges are the record's
   leading tags, its details link leads to the record's id, and it shows the
   record's non-empty external links.
   */
  lemma CardOfApiProject(a: ApiProject)
    ensures var c := CardOf(MapApiProjectToProject(a));
      && IsPrefix(c.badges, a.tags)
      && c.detailLink[|DetailPrefix|..] == a.objectId
      && ShowsLink(c.github, a.githubUrl)
      && ShowsLink(c.demo, a.demoUrl)
      && ShowsLink(c.medium, a.mediumUrl)
  {
    CardLinks(MapApiProjectToProject(a));
    CardAccountsForAllTags(MapApiProjectToProject(a));
  }

  /**
   Every tag is accounted for: the badges are the leading tags, and together
   with the overflow count they cover the whole list.
   */
  lemma CardAccountsForAllTags(p: Project)
    ensures var c := CardOf(p);
      && IsPrefix(c.badges, p.tags)
      && |c.badges| + (if c.overflow.Some? then c.overflow.value else 0) == |p.tags|
      && (c.overflow.None? ==> c.badges == p.tags)
  {
  }

  predicate IsPrefix(xs: seq<string>, ys: seq<string>) {
    |xs| <= |ys| && ys[..|xs|] == xs
  }

  /** Two cards link to the same detail page only for the same id. */
  lemma DetailLinkInjective(a: string, b: string)
    ensures DetailLink(a) == DetailLink(b) <==> a == b
  {
    if DetailLink(a) == DetailLink(b) {
      assert a == DetailLink(a)[|DetailPrefix|..];
    }
  }
}
