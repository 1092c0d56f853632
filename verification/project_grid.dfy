/** The public project grid: the category buttons and the filter applied
    to the fetched project list. Fetching is left out; the list arrives as
    `None` while there is no data. */
module ProjectGrid {
  import opened Wrappers
  import opened Text
  import opened Tables
  import opened Schema
  import Storage

  /** The filter the grid starts with. */
  const InitialFilter := "all"

  /** The values of the four category buttons, in display order. */
  const Categories: seq<string> := ["all", "web", "mobile", "design"]

  /** The category test for a filter other than `"all"`: equal categories
      ignoring letter case. */
  function MatchesFilter(filter: string): Project -> bool {
    (p: Project) => EqualsIgnoreCase(p.category, filter)
  }

  /** `filterProjects`: no data gives no projects; exactly `"all"` gives the
      list as it is; any other filter keeps, in order, the projects whose
      category equals the filter ignoring case. */
  function FilterProjects(projects: Option<seq<Project>>, filter: string): (r: seq<Project>)
    ensures projects.None? ==> r == []
    ensures projects.Some? && filter == "all" ==> r == projects.value
    ensures projects.Some? && filter != "all" ==>
      && IsSubsequence(r, projects.value)
      && (forall p :: p in r ==> ToLower(p.category) == ToLower(filter))
      && (forall p :: p in projects.value && ToLower(p.category) == ToLower(filter) ==> p in r)
  {
    match projects
    case None => []
    case Some(ps) => if filter == "all" then ps else Filter(ps, MatchesFilter(filter))
  }

  /** Filtering the already filtered list again with the same filter
      changes nothing. */
  lemma FilterProjectsIdempotent(projects: Option<seq<Project>>, filter: string)
    ensures FilterProjects(Some(FilterProjects(projects, filter)), filter)
         == FilterProjects(projects, filter)
  {
    if projects.Some? && filter != "all" {
      FilterIdempotent(projects.value, MatchesFilter(filter));
    }
  }

  /** Two filters that differ only in letter case select the same projects,
      unless one of them is exactly `"all"`, which is tested case-sensitively. */
  lemma FilterIgnoresCase(projects: seq<Project>, f1: string, f2: string)
    requires f1 != "all" && f2 != "all"
    requires ToLower(f1) == ToLower(f2)
    ensures FilterProjects(Some(projects), f1) == FilterProjects(Some(projects), f2)
  {
    FilterAgree(projects, MatchesFilter(f1), MatchesFilter(f2));
  }

  /** `"ALL"` is not the show-everything filter: it keeps only projects
      whose category reads "all" in some letter case. */
  lemma UpperCaseAllIsACategory(projects: seq<Project>)
    requires forall i :: 0 <= i < |projects| ==> projects[i].category == "web"
    ensures FilterProjects(Some(projects), "ALL") == []
    ensures FilterProjects(Some(projects), "all") == projects
  {
    assert ToLower("ALL") == "all";
    assert ToLower("web") == "web";
    forall i | 0 <= i < |projects|
      ensures !MatchesFilter("ALL")(projects[i])
    {
      assert ToLower(projects[i].category)[0] == 'w';
    }
    CountBounds(projects, MatchesFilter("ALL"));
  }

  /** Every project the server lists for category `c` survives the grid's
      filter `c`: the server's exact match is the stricter of the two. */
  lemma ServerCategoryPassesGridFilter(st: Storage.Store, c: string)
    ensures forall p :: p in Storage.GetProjectsByCategory(st, c) ==>
      p in FilterProjects(Some(st.projects), c)
  {
  }

  /** The buttons hold distinct values, so exactly one is highlighted for
      any filter chosen from them, and the initial filter is one of them. */
  lemma ExactlyOneButtonActive(filter: string)
    requires filter in Categories
    ensures Count(Categories, (v: string) => v == filter) == 1
    ensures InitialFilter in Categories
  {
  }
}
