/** The full catalogue page (app/tests/page.tsx): the same three filters as the home page,
    except that its search looks at the title and the description only. */
module TestsPage {
  import opened Types
  import opened Seqs
  import opened TestFilters
  import HomeClient

  /** `matchesSearch` on this page. */
  predicate PageSearchMatches(t: MockTest, search: string)
  {
    |search| == 0 || TextMatches(t.title, search) || TextMatches(t.description, search)
  }

  /** The callback given to `tests.filter`. */
  function MatchesPage(f: FiltersState): MockTest -> bool
  {
    (t: MockTest) => PageSearchMatches(t, f.search) && MatchesDifficulty(t, f) && MatchesCategory(t, f)
  }

  /** `applyFilters` */
  function ApplyPageFilters(tests: seq<MockTest>, f: FiltersState): seq<MockTest>
  {
    Filter(MatchesPage(f), tests)
  }

  /** The list keeps, in catalogue order, exactly the tests that pass all three filters;
      with the initial filters it is the whole catalogue. */
  lemma PageFiltersSpec(tests: seq<MockTest>, f: FiltersState)
    ensures var r := ApplyPageFilters(tests, f);
      && IsSubsequence(r, tests)
      && (forall t :: t in r ==> t in tests && PageSearchMatches(t, f.search) && MatchesDifficulty(t, f) && MatchesCategory(t, f))
      && (forall i :: 0 <= i < |tests| && PageSearchMatches(tests[i], f.search) && MatchesDifficulty(tests[i], f) && MatchesCategory(tests[i], f)
            ==> tests[i] in r)
    ensures ApplyPageFilters(tests, InitialFilters) == tests
  {
    FilterIsSubsequence(MatchesPage(f), tests);
    FilterKeepsAll(MatchesPage(InitialFilters), tests);
  }

  /** A test passes the home filters exactly when it passes this page's, or the search is
      non-empty, one of its tags contains it, and the difficulty and category match. */
  lemma HomeMatchesPageOrTag(f: FiltersState, t: MockTest)
    ensures HomeClient.MatchesHome(f)(t)
        <==> MatchesPage(f)(t)
             || (|f.search| > 0 && HomeClient.TagMatches(t, f.search) && MatchesDifficulty(t, f) && MatchesCategory(t, f))
  {
  }

  /** For the same filters this page lists a subsequence of what the home page lists, and
      the very same tests while the search is empty. */
  lemma PageWithinHome(tests: seq<MockTest>, f: FiltersState)
    ensures IsSubsequence(ApplyPageFilters(tests, f), HomeClient.ApplyHomeFilters(tests, f))
    ensures f.search == "" ==> ApplyPageFilters(tests, f) == HomeClient.ApplyHomeFilters(tests, f)
  {
    FilterMonotone(MatchesPage(f), HomeClient.MatchesHome(f), tests);
    if f.search == "" {
      FilterAgrees(MatchesPage(f), HomeClient.MatchesHome(f), tests);
    }
  }

  /** Without tags in the catalogue the two pages list the same tests. */
  lemma WithoutTagsPagesAgree(tests: seq<MockTest>, f: FiltersState)
    requires forall i :: 0 <= i < |tests| ==> !HomeClient.TagMatches(tests[i], f.search)
    ensures ApplyPageFilters(tests, f) == HomeClient.ApplyHomeFilters(tests, f)
  {
    FilterAgrees(MatchesPage(f), HomeClient.MatchesHome(f), tests);
  }
}
