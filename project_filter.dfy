/**
 * The search and type filter of the project listing
 * (`components/project-list.tsx`) and its "Clear Filters" reset.
 */
module ProjectFilter {
  import opened Wrappers
  import opened Text
  import opened DocTypes
  import opened Lists

  /** The listing's filter state: the search box and the selected type (`null` is `None`). */
  datatype Filters = Filters(searchTerm: string, selectedType: Option<string>)

  /** Some tag of the project contains `term` once lower-cased; a missing tag list has none. */
  predicate TagMatches(tags: Option<seq<string>>, term: string) {
    tags.Some? && exists i :: 0 <= i < |tags.value| && Contains(ToLower(tags.value[i]), term)
  }

  /** The search matches title, description or a tag, ignoring case. */
  predicate MatchesSearch(p: ProjectSummary, searchTerm: string) {
    var term := ToLower(searchTerm);
    Contains(ToLower(p.title), term) || Contains(ToLower(p.description), term) || TagMatches(p.tags, term)
  }

  /** No selected type (or an empty one) lets every project through; otherwise the type must be equal. */
  predicate MatchesType(p: ProjectSummary, selectedType: Option<string>) {
    if selectedType.Some? && selectedType.value != "" then p.projectType == selectedType.value else true
  }

  /** The filter predicate: the search matches and the type matches. */
  predicate Keep(f: Filters, p: ProjectSummary) {
    MatchesSearch(p, f.searchTerm) && MatchesType(p, f.selectedType)
  }

  /**
   * `filteredProjects`: the projects the filter keeps. The result is a
   * subsequence of the input, holds only kept projects and every kept one as
   * often as the input does.
   */
  function FilterProjects(projects: seq<ProjectSummary>, f: Filters): (r: seq<ProjectSummary>)
    ensures Subsequence(r, projects)
    ensures forall p :: p in r ==> Keep(f, p)
    ensures forall p :: multiset(r)[p] == if Keep(f, p) then multiset(projects)[p] else 0
  {
    if projects == [] then []
    else
      var rest := FilterProjects(projects[1..], f);
      assert projects == [projects[0]] + projects[1..];
      if Keep(f, projects[0]) then [projects[0]] + rest else rest
  }

  /** The "Clear Filters" button: empty search, no type. */
  function ClearFilters(): (f: Filters)
    ensures f.searchTerm == "" && f.selectedType.None?
  {
    Filters("", None)
  }

  /** Every project contains the empty search term, lower-cased or not. */
  lemma EmptySearchMatches(p: ProjectSummary)
    ensures MatchesSearch(p, "")
  {
    ContainsEmpty(ToLower(p.title));
  }

  /** Cleared filters keep every project, in order. */
  lemma {:induction false} ClearedFiltersKeepAll(projects: seq<ProjectSummary>)
    ensures FilterProjects(projects, ClearFilters()) == projects
  {
    if projects != [] {
      EmptySearchMatches(projects[0]);
      ClearedFiltersKeepAll(projects[1..]);
    }
  }

  /** Filtering twice keeps what both filters keep. */
  lemma {:induction false} FilterTwice(projects: seq<ProjectSummary>, f: Filters, g: Filters, h: Filters)
    requires forall p :: Keep(h, p) <==> Keep(f, p) && Keep(g, p)
    ensures FilterProjects(FilterProjects(projects, f), g) == FilterProjects(projects, h)
  {
    if projects != [] {
      FilterTwice(projects[1..], f, g, h);
      var first := FilterProjects(projects, f);
      if Keep(f, projects[0]) {
        assert first[0] == projects[0] && first[1..] == FilterProjects(projects[1..], f);
      }
    }
  }

  /**
   * Selecting a type never adds projects: the result is the search result
   * further restricted to projects of exactly that type.
   */
  lemma TypeSelectionNarrows(projects: seq<ProjectSummary>, searchTerm: string, selected: string)
    requires selected != ""
    ensures FilterProjects(projects, Filters(searchTerm, Some(selected))) ==
      FilterProjects(FilterProjects(projects, Filters(searchTerm, None)), Filters("", Some(selected)))
    ensures forall p :: p in FilterProjects(projects, Filters(searchTerm, Some(selected))) ==>
      p.projectType == selected
  {
    forall p {
      EmptySearchMatches(p);
    }
    FilterTwice(projects, Filters(searchTerm, None), Filters("", Some(selected)), Filters(searchTerm, Some(selected)));
  }

  /** The search ignores case: a term and its lower-case form keep the same projects. */
  lemma SearchIgnoresCase(p: ProjectSummary, f: Filters)
    ensures Keep(f, p) <==> Keep(Filters(ToLower(f.searchTerm), f.selectedType), p)
  {
    ToLowerIdempotent(f.searchTerm);
  }
}
