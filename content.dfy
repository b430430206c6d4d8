/**
 * Metadata of the site's ideas and projects: the slug taken from a content
 * file's path, frontmatter defaulting with JavaScript `||`, and newest-first
 * ordering. The content modules found by the bundler are an input: a sequence
 * of (path, module) pairs in `Object.entries` order. Dates are turned into
 * timestamps by the parameter `timeOf`, standing for `new Date(d).getTime()`.
 */
module Content {
  import opened Wrappers
  import opened Text
  import opened Sorting

  // ---------------------------------------------------------------------------
  // Data model

  /** The frontmatter fields the site reads; `None` is an absent field. */
  datatype Frontmatter = Frontmatter(
    title: Option<string>,
    date: Option<string>,
    excerpt: Option<string>,
    name: Option<string>,
    description: Option<string>,
    link: Option<string>)

  /** `{}`: a module without frontmatter. */
  const NoFrontmatter: Frontmatter := Frontmatter(None, None, None, None, None, None)

  datatype ContentModule = ContentModule(frontmatter: Option<Frontmatter>)

  datatype PostMetadata = PostMetadata(title: string, date: string, excerpt: string, slug: string)

  datatype ProjectMetadata = ProjectMetadata(
    name: string, description: string, link: string, slug: string, date: Option<string>)

  // ---------------------------------------------------------------------------
  // extractSlugFromPath

  /** `pat` occurs in `s` at position `i`. */
  predicate OccursAt(s: string, pat: string, i: nat) {
    i + |pat| <= |s| && s[i..i + |pat|] == pat
  }

  /** `s.indexOf(pat, from)`: the first occurrence at or after `from`. */
  function IndexOf(s: string, pat: string, from: nat): (r: Option<nat>)
    decreases |s| - from
    ensures r.Some? ==> from <= r.value && OccursAt(s, pat, r.value)
    ensures r.Some? ==> forall j | from <= j < r.value :: !OccursAt(s, pat, j)
    ensures r.None? ==> forall j | from <= j :: !OccursAt(s, pat, j)
  {
    if from + |pat| > |s| then None
    else if s[from..from + |pat|] == pat then Some(from)
    else IndexOf(s, pat, from + 1)
  }

  lemma {:induction false} IndexOfFinds(s: string, pat: string, from: nat, k: nat)
    requires from <= k && OccursAt(s, pat, k)
    requires forall j | from <= j < k :: !OccursAt(s, pat, j)
    ensures IndexOf(s, pat, from) == Some(k)
    decreases k - from
  {
    if from < k {
      IndexOfFinds(s, pat, from + 1, k);
    }
  }

  /** `pat` occurs in `s` at `i` and nowhere before. */
  predicate FirstOccurrence(s: string, pat: string, i: nat) {
    OccursAt(s, pat, i) && forall j | 0 <= j < i :: !OccursAt(s, pat, j)
  }

  /** `s.replace(pat, rep)` with a string pattern: only the first occurrence is replaced. */
  function ReplaceFirst(s: string, pat: string, rep: string): (r: string)
    ensures (forall j: nat :: !OccursAt(s, pat, j)) ==> r == s
    ensures forall i: nat | FirstOccurrence(s, pat, i) :: r == s[..i] + rep + s[i + |pat|..]
    ensures forall c | c in r :: c in s || c in rep
  {
    match IndexOf(s, pat, 0)
    case None => s
    case Some(i) =>
      assert forall c | c in s[..i] || c in s[i + |pat|..] :: c in s;
      s[..i] + rep + s[i + |pat|..]
  }

  /**
   * `path.split('/').pop()?.replace('.mdx', '') || ''`. `split` never returns an
   * empty array, so `pop()` always yields a string and the `?.` and `|| ''`
   * never change the result.
   */
  function ExtractSlugFromPath(path: string): (slug: string)
    ensures '/' !in slug
  {
    var segments := SplitOn(path, '/');
    ReplaceFirst(segments[|segments| - 1], ".mdx", "")
  }

  /**
   * The slug is taken from the last path segment: whatever precedes the last
   * `/` has no influence on it.
   */
  lemma SlugIgnoresDirectory(dir: string, file: string)
    requires '/' !in file
    ensures ExtractSlugFromPath(dir + "/" + file) == ReplaceFirst(file, ".mdx", "")
  {
    SplitOnAround(dir, file, '/');
    SplitOnWithoutSeparator(file, '/');
  }

  /**
   * A content file `dir/name.mdx` gets the slug `name`, provided `.mdx` does
   * not already occur earlier in the file name.
   */
  lemma SlugOfContentFile(dir: string, name: string)
    requires '/' !in name
    requires forall i | 0 <= i < |name| :: !OccursAt(name + ".mdx", ".mdx", i)
    ensures ExtractSlugFromPath(dir + "/" + name + ".mdx") == name
  {
    var file := name + ".mdx";
    assert dir + "/" + name + ".mdx" == dir + "/" + file;
    SlugIgnoresDirectory(dir, file);
    assert OccursAt(file, ".mdx", |name|);
    IndexOfFinds(file, ".mdx", 0, |name|);
    assert file[..|name|] == name;
  }

  /**
   * The slug is the part of the path after its last `/` (all of the path when
   * there is none), minus its first `.mdx`.
   */
  lemma SlugIsLastSegment(path: string)
    ensures exists k | 0 <= k <= |path| ::
      && '/' !in path[k..]
      && (k > 0 ==> path[k - 1] == '/')
      && ExtractSlugFromPath(path) == ReplaceFirst(path[k..], ".mdx", "")
  {
    var segments := SplitOn(path, '/');
    var last := segments[|segments| - 1];
    assert ExtractSlugFromPath(path) == ReplaceFirst(last, ".mdx", "");
    assert '/' !in last;
    SplitOnLast(path, '/');
    assert EndsAfter(path, last, '/');
    var k := |path| - |last|;
    assert path[k..] == last;
    assert k > 0 ==> path[k - 1] == '/';
  }


  // ---------------------------------------------------------------------------
  // getIdeas

  /** `module?.frontmatter || {}`. */
  function FrontmatterOf(m: ContentModule): (fm: Frontmatter)
    ensures m.frontmatter.Some? ==> fm == m.frontmatter.value
    ensures m.frontmatter.None? ==>
      fm.title.None? && fm.date.None? && fm.excerpt.None? && fm.name.None? && fm.description.None? && fm.link.None?
  {
    if m.frontmatter.Some? then m.frontmatter.value else NoFrontmatter
  }

  /**
   * The record `getIdeas` builds for one module; `nowIso` stands for
   * `new Date().toISOString()`.
   */
  function IdeaOf(path: string, m: ContentModule, nowIso: string): (post: PostMetadata)
    ensures post.title != ""
    ensures nowIso != "" ==> post.date != ""
    ensures post.slug == ExtractSlugFromPath(path) && '/' !in post.slug
    ensures var fm := FrontmatterOf(m);
      && (Truthy(fm.title) ==> post.title == fm.title.value)
      && (!Truthy(fm.title) ==> post.title == "Untitled")
      && (Truthy(fm.date) ==> post.date == fm.date.value)
      && (!Truthy(fm.date) ==> post.date == nowIso)
      && (Truthy(fm.excerpt) ==> post.excerpt == fm.excerpt.value)
      && (!Truthy(fm.excerpt) ==> post.excerpt == "")
  {
    var fm := FrontmatterOf(m);
    PostMetadata(
      Or(fm.title, "Untitled"),
      Or(fm.date, nowIso),
      Or(fm.excerpt, ""),
      ExtractSlugFromPath(path))
  }

  /** `Object.entries(ideasModules).map(...)`. */
  function Ideas(modules: seq<(string, ContentModule)>, nowIso: string): (posts: seq<PostMetadata>)
    ensures |posts| == |modules|
    ensures forall i | 0 <= i < |modules| :: posts[i] == IdeaOf(modules[i].0, modules[i].1, nowIso)
    ensures forall i | 0 <= i < |modules| :: posts[i].title != ""
  {
    seq(|modules|, i requires 0 <= i < |modules| => IdeaOf(modules[i].0, modules[i].1, nowIso))
  }

  /** The comparator `(a, b) => time(b.date) - time(a.date)`. */
  function IdeaOrder(timeOf: string -> int): (cmp: (PostMetadata, PostMetadata) -> int)
    ensures forall a, b :: cmp(a, b) == -cmp(b, a)
    ensures forall a, b :: cmp(a, b) < 0 <==> timeOf(a.date) > timeOf(b.date)
  {
    (a: PostMetadata, b: PostMetadata) => timeOf(b.date) - timeOf(a.date)
  }

  /** The two posts returned when no idea module is found. */
  const FallbackIdeas: seq<PostMetadata> := [
    PostMetadata("Understanding Market Dynamics in 2024", "2024-01-15",
      "An analysis of current market trends and their implications for long-term investing.",
      "market-dynamics-2024"),
    PostMetadata("Test Post", "2024-01-01", "A simple test post", "test")
  ]

  /**
   * The built-in ideas look like mapped ones: titled, dated, and with
   * distinct slugs that hold no `/`.
   */
  lemma FallbackIdeasWellFormed()
    ensures |FallbackIdeas| == 2 && FallbackIdeas[0].slug != FallbackIdeas[1].slug
    ensures forall i | 0 <= i < |FallbackIdeas| ::
      FallbackIdeas[i].title != "" && FallbackIdeas[i].date != "" && '/' !in FallbackIdeas[i].slug
  {
  }

  /** `getIdeas`. */
  function GetIdeas(modules: seq<(string, ContentModule)>, nowIso: string, timeOf: string -> int)
    : (posts: seq<PostMetadata>)
    ensures |modules| == 0 ==> posts == FallbackIdeas
    ensures |modules| > 0 ==> multiset(posts) == multiset(Ideas(modules, nowIso))
  {
    if |modules| == 0 then FallbackIdeas
    else SortBy(Ideas(modules, nowIso), IdeaOrder(timeOf))
  }

  /** With at least one module, the ideas come newest first and every title is non-empty. */
  lemma GetIdeasNewestFirst(modules: seq<(string, ContentModule)>, nowIso: string, timeOf: string -> int)
    requires |modules| > 0
    ensures var posts := GetIdeas(modules, nowIso, timeOf);
      && (forall i, j | 0 <= i < j < |posts| :: timeOf(posts[i].date) >= timeOf(posts[j].date))
      && (forall i | 0 <= i < |posts| :: posts[i].title != "")
  {
    var mapped := Ideas(modules, nowIso);
    var dom := set p | p in mapped;
    SortByDescending(mapped, IdeaOrder(timeOf), IdeaTime(timeOf), dom);
    var posts := GetIdeas(modules, nowIso, timeOf);
    forall i | 0 <= i < |posts| ensures posts[i].title != "" {
      assert posts[i] in multiset(mapped);
    }
  }

  /** The timestamp the comparator of `getIdeas` sorts by. */
  function IdeaTime(timeOf: string -> int): PostMetadata -> int {
    (p: PostMetadata) => timeOf(p.date)
  }

  /**
   * Ideas whose dates have the same timestamp keep the order of the module
   * entries.
   */
  lemma GetIdeasStable(modules: seq<(string, ContentModule)>, nowIso: string, timeOf: string -> int, t: int)
    requires |modules| > 0
    ensures WithKey(GetIdeas(modules, nowIso, timeOf), IdeaTime(timeOf), t)
         == WithKey(Ideas(modules, nowIso), IdeaTime(timeOf), t)
  {
    var mapped := Ideas(modules, nowIso);
    var dom := set p | p in mapped;
    SortByStable(mapped, IdeaOrder(timeOf), IdeaTime(timeOf), dom, t);
  }

  // ---------------------------------------------------------------------------
  // getProjects

  /** The record `getProjects` builds for one module. */
  function ProjectOf(path: string, m: ContentModule): (p: ProjectMetadata)
    ensures p.name != "" && p.link != ""
    ensures p.slug == ExtractSlugFromPath(path)
    ensures var fm := FrontmatterOf(m);
      && (Truthy(fm.name) ==> p.name == fm.name.value)
      && (!Truthy(fm.name) && Truthy(fm.title) ==> p.name == fm.title.value)
      && (!Truthy(fm.name) && !Truthy(fm.title) ==> p.name == "Untitled Project")
      && (Truthy(fm.description) ==> p.description == fm.description.value)
      && (!Truthy(fm.description) && Truthy(fm.excerpt) ==> p.description == fm.excerpt.value)
      && (!Truthy(fm.description) && !Truthy(fm.excerpt) ==> p.description == "")
      && (Truthy(fm.link) ==> p.link == fm.link.value)
      && (!Truthy(fm.link) ==> p.link == "#" + p.slug)
      && p.date == fm.date
  {
    var fm := FrontmatterOf(m);
    var slug := ExtractSlugFromPath(path);
    ProjectMetadata(
      Or(fm.name, Or(fm.title, "Untitled Project")),
      Or(fm.description, Or(fm.excerpt, "")),
      Or(fm.link, "#" + slug),
      slug,
      fm.date)
  }

  /** `Object.entries(projectsModules).map(...)`. */
  function Projects(modules: seq<(string, ContentModule)>): (projects: seq<ProjectMetadata>)
    ensures |projects| == |modules|
    ensures forall i | 0 <= i < |modules| :: projects[i] == ProjectOf(modules[i].0, modules[i].1)
    ensures forall i | 0 <= i < |modules| :: projects[i].name != "" && projects[i].link != ""
  {
    seq(|modules|, i requires 0 <= i < |modules| => ProjectOf(modules[i].0, modules[i].1))
  }

  /** A project's date is truthy (present and non-empty). */
  predicate HasDate(p: ProjectMetadata) {
    Truthy(p.date)
  }

  /** The comparator of `getProjects`: by date, newest first, when both have one; otherwise 0. */
  function ProjectOrder(timeOf: string -> int): (cmp: (ProjectMetadata, ProjectMetadata) -> int)
    ensures forall a, b :: !HasDate(a) || !HasDate(b) ==> cmp(a, b) == 0
    ensures forall a, b :: HasDate(a) && HasDate(b) ==>
      (cmp(a, b) < 0 <==> timeOf(a.date.value) > timeOf(b.date.value))
  {
    (a: ProjectMetadata, b: ProjectMetadata) =>
      if HasDate(a) && HasDate(b) then timeOf(b.date.value) - timeOf(a.date.value) else 0
  }

  /** The comparator is antisymmetric, and ties whenever either date is missing. */
  lemma ProjectOrderAntisymmetric(timeOf: string -> int, a: ProjectMetadata, b: ProjectMetadata)
    ensures ProjectOrder(timeOf)(a, b) == -ProjectOrder(timeOf)(b, a)
    ensures !HasDate(a) || !HasDate(b) ==> ProjectOrder(timeOf)(a, b) == 0
  {
  }

  /**
   * With some dates missing the comparator is not consistent: an undated project
   * ties with two dated ones that do not tie with each other, so the order
   * `sort` produces is left to the engine.
   */
  lemma ProjectOrderNotTransitive(timeOf: string -> int, older: ProjectMetadata, undated: ProjectMetadata,
                                  newer: ProjectMetadata)
    requires HasDate(older) && HasDate(newer) && !HasDate(undated)
    requires timeOf(older.date.value) < timeOf(newer.date.value)
    ensures ProjectOrder(timeOf)(older, undated) == 0 && ProjectOrder(timeOf)(undated, newer) == 0
    ensures ProjectOrder(timeOf)(older, newer) > 0
  {
  }

  /** `getProjects`: a permutation of the mapped projects. */
  function GetProjects(modules: seq<(string, ContentModule)>, timeOf: string -> int)
    : (projects: seq<ProjectMetadata>)
    ensures multiset(projects) == multiset(Projects(modules))
  {
    SortBy(Projects(modules), ProjectOrder(timeOf))
  }

  /** When every project has a date, the projects come newest first. */
  lemma GetProjectsAllDated(modules: seq<(string, ContentModule)>, timeOf: string -> int)
    requires forall i | 0 <= i < |modules| :: HasDate(ProjectOf(modules[i].0, modules[i].1))
    ensures var projects := GetProjects(modules, timeOf);
      && (forall k | 0 <= k < |projects| :: HasDate(projects[k]))
      && forall i, j | 0 <= i < j < |projects| ::
           timeOf(projects[i].date.value) >= timeOf(projects[j].date.value)
  {
    var mapped := Projects(modules);
    var dom := set p | p in mapped;
    ProjectsByTime(mapped, timeOf, dom);
    SortByDescending(mapped, ProjectOrder(timeOf), ProjectTime(timeOf), dom);
    var projects := GetProjects(modules, timeOf);
    forall k | 0 <= k < |projects| ensures HasDate(projects[k]) {
      assert projects[k] in multiset(mapped);
    }
    forall i, j | 0 <= i < j < |projects|
      ensures timeOf(projects[i].date.value) >= timeOf(projects[j].date.value)
    {
      assert ProjectTime(timeOf)(projects[i]) >= ProjectTime(timeOf)(projects[j]);
    }
  }

  /** The timestamp of a dated project. */
  function ProjectTime(timeOf: string -> int): ProjectMetadata -> int {
    (p: ProjectMetadata) => if HasDate(p) then timeOf(p.date.value) else 0
  }

  /** Among dated projects, the comparator of `getProjects` is the difference of the timestamps. */
  lemma ProjectsByTime(projects: seq<ProjectMetadata>, timeOf: string -> int, dom: set<ProjectMetadata>)
    requires forall i | 0 <= i < |projects| :: HasDate(projects[i])
    requires dom == set p | p in projects
    ensures ByKeyDescending(ProjectOrder(timeOf), ProjectTime(timeOf), dom)
    ensures forall i | 0 <= i < |projects| :: projects[i] in dom
  {
    forall a, b | a in dom && b in dom ensures Descends(ProjectOrder(timeOf), ProjectTime(timeOf), a, b) {
      assert HasDate(a) && HasDate(b);
    }
  }

  /** When every project has a date, projects with the same timestamp keep the file order. */
  lemma GetProjectsStable(modules: seq<(string, ContentModule)>, timeOf: string -> int, t: int)
    requires forall i | 0 <= i < |modules| :: HasDate(ProjectOf(modules[i].0, modules[i].1))
    ensures WithKey(GetProjects(modules, timeOf), ProjectTime(timeOf), t)
         == WithKey(Projects(modules), ProjectTime(timeOf), t)
  {
    var mapped := Projects(modules);
    var dom := set p | p in mapped;
    ProjectsByTime(mapped, timeOf, dom);
    SortByStable(mapped, ProjectOrder(timeOf), ProjectTime(timeOf), dom, t);
  }

  /** When no project has a date, the file order is kept. */
  lemma GetProjectsNoneDated(modules: seq<(string, ContentModule)>, timeOf: string -> int)
    requires forall i | 0 <= i < |modules| :: !HasDate(ProjectOf(modules[i].0, modules[i].1))
    ensures GetProjects(modules, timeOf) == Projects(modules)
  {
    SortByAllEqual(Projects(modules), ProjectOrder(timeOf));
  }
}
