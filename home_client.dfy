/** The home page's catalogue (components/HomeClient.tsx): the tests that pass the filters,
    where the search text also looks into question tags, and the first six of them shown
    as featured cards. */
module HomeClient {
  import opened Wrappers
  import opened Types
  import opened Seqs
  import opened TestFilters
  import opened Text

  /** Some tag of the question contains the search text, ignoring case. */
  predicate QuestionHasTag(q: Question, search: string)
  {
    q.tags.Some? && exists k :: 0 <= k < |q.tags.value| && TextMatches(q.tags.value[k], search)
  }

  /** Some question of the section has such a tag. */
  predicate SectionHasTag(s: Section, search: string)
  {
    exists j :: 0 <= j < |s.questions| && QuestionHasTag(s.questions[j], search)
  }

  /** Some question of the test has such a tag. */
  predicate TagMatches(t: MockTest, search: string)
  {
    exists i :: 0 <= i < |t.sections| && SectionHasTag(t.sections[i], search)
  }

  /** `matchesSearch` on the home page: an empty search, or the title, the description or a
      tag contains it. */
  predicate HomeSearchMatches(t: MockTest, search: string)
  {
    |search| == 0 || TextMatches(t.title, search) || TextMatches(t.description, search) || TagMatches(t, search)
  }

  /** The callback given to `tests.filter`. */
  function MatchesHome(f: FiltersState): MockTest -> bool
  {
    (t: MockTest) => HomeSearchMatches(t, f.search) && MatchesDifficulty(t, f) && MatchesCategory(t, f)
  }

  /** `applyFilters` */
  function ApplyHomeFilters(tests: seq<MockTest>, f: FiltersState): seq<MockTest>
  {
    Filter(MatchesHome(f), tests)
  }

  /** `filtered.slice(0, 6)`: the first six filtered tests, or all of them when there are
      fewer. */
  function Featured(filtered: seq<MockTest>): (featured: seq<MockTest>)
    ensures |featured| == (if |filtered| < 6 then |filtered| else 6)
    ensures featured <= filtered
  {
    if |filtered| <= 6 then filtered else filtered[..6]
  }

  /** The filtered list keeps, in catalogue order, exactly the tests that pass all three
      filters. */
  lemma HomeFiltersSpec(tests: seq<MockTest>, f: FiltersState)
    ensures var r := ApplyHomeFilters(tests, f);
      && IsSubsequence(r, tests)
      && (forall t :: t in r ==> t in tests && HomeSearchMatches(t, f.search) && MatchesDifficulty(t, f) && MatchesCategory(t, f))
      && (forall i :: 0 <= i < |tests| && HomeSearchMatches(tests[i], f.search) && MatchesDifficulty(tests[i], f) && MatchesCategory(tests[i], f)
            ==> tests[i] in r)
  {
    FilterIsSubsequence(MatchesHome(f), tests);
  }

  /** With the initial filters every test is listed. */
  lemma HomeInitialShowsAll(tests: seq<MockTest>)
    ensures ApplyHomeFilters(tests, InitialFilters) == tests
  {
    FilterKeepsAll(MatchesHome(InitialFilters), tests);
  }

  /** Typing a search text only narrows the list shown for the same difficulty and
      category. */
  lemma HomeSearchNarrows(tests: seq<MockTest>, f: FiltersState)
    ensures IsSubsequence(ApplyHomeFilters(tests, f), ApplyHomeFilters(tests, f.(search := "")))
  {
    FilterMonotone(MatchesHome(f), MatchesHome(f.(search := "")), tests);
  }

  /** The search ignores case: a search text and its lower-case form list the same tests. */
  lemma HomeSearchIgnoresCase(tests: seq<MockTest>, f: FiltersState)
    ensures ApplyHomeFilters(tests, f.(search := Lower(f.search))) == ApplyHomeFilters(tests, f)
  {
    var g := f.(search := Lower(f.search));
    forall i | 0 <= i < |tests| ensures MatchesHome(g)(tests[i]) == MatchesHome(f)(tests[i]) {
      var t := tests[i];
      TextMatchesSpec(t.title, f.search);
      TextMatchesSpec(t.description, f.search);
      SameTagMatches(t, f.search);
    }
    FilterAgrees(MatchesHome(g), MatchesHome(f), tests);
  }

  /** A tag matches a search text exactly when it matches its lower-case form. */
  lemma SameTagMatches(t: MockTest, search: string)
    ensures TagMatches(t, Lower(search)) == TagMatches(t, search)
  {
    forall i, j, k | 0 <= i < |t.sections| && 0 <= j < |t.sections[i].questions|
                     && t.sections[i].questions[j].tags.Some? && 0 <= k < |t.sections[i].questions[j].tags.value|
      ensures TextMatches(t.sections[i].questions[j].tags.value[k], Lower(search))
              == TextMatches(t.sections[i].questions[j].tags.value[k], search)
    {
      TextMatchesSpec(t.sections[i].questions[j].tags.value[k], search);
    }
  }
}
