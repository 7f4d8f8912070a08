/** The filter controls (components/TestFilters.tsx): the filter state, the three
    controls that each replace one field of it, and the category options built from the
    catalogue. */
module TestFilters {
  import opened Types
  import opened Seqs
  import opened Text

  /** The difficulty select: "all" or one level. */
  datatype DifficultyFilter = AnyDifficulty | OnlyDifficulty(level: TestDifficulty)

  /** `FiltersState`; the category "all" stands for every category. */
  datatype FiltersState = FiltersState(search: string, difficulty: DifficultyFilter, category: string)

  /** The state the pages start from. */
  const InitialFilters := FiltersState("", AnyDifficulty, "all")

  function SetSearch(f: FiltersState, search: string): FiltersState
  {
    f.(search := search)
  }

  function SetDifficulty(f: FiltersState, difficulty: DifficultyFilter): FiltersState
  {
    f.(difficulty := difficulty)
  }

  function SetCategory(f: FiltersState, category: string): FiltersState
  {
    f.(category := category)
  }

  /** Each control changes its own field only: the new state carries the chosen value and
      agrees with the old state elsewhere, and choosing the old value again restores the
      old state. */
  lemma ControlsChangeOneField(f: FiltersState, search: string, difficulty: DifficultyFilter, category: string)
    ensures SetSearch(f, search).search == search
    ensures SetSearch(f, search).(search := f.search) == f
    ensures SetDifficulty(f, difficulty).difficulty == difficulty
    ensures SetDifficulty(f, difficulty).(difficulty := f.difficulty) == f
    ensures SetCategory(f, category).category == category
    ensures SetCategory(f, category).(category := f.category) == f
    ensures SetSearch(SetSearch(f, search), f.search) == f
    ensures SetDifficulty(SetDifficulty(f, difficulty), f.difficulty) == f
    ensures SetCategory(SetCategory(f, category), f.category) == f
  {
  }

  /** `text.toLowerCase().includes(search.toLowerCase())`: the search text occurs in the
      field, ignoring case. */
  predicate TextMatches(text: string, search: string)
  {
    Includes(Lower(text), Lower(search))
  }

  /** `difficulty === "all" || test.difficulty === difficulty` */
  predicate MatchesDifficulty(t: MockTest, f: FiltersState)
  {
    f.difficulty.AnyDifficulty? || t.difficulty == f.difficulty.level
  }

  /** `category === "all" || test.category === category` */
  predicate MatchesCategory(t: MockTest, f: FiltersState)
  {
    f.category == "all" || t.category == f.category
  }

  /** An empty search text occurs in every field; a search text that differs only in case
      matches the same fields. */
  lemma TextMatchesSpec(text: string, search: string)
    ensures TextMatches(text, "")
    ensures TextMatches(text, search) <==> TextMatches(text, Lower(search))
    ensures search <= text ==> TextMatches(text, search)
  {
    LowerTwice(search);
    if search <= text {
      assert Lower(search) <= Lower(text) by {
        assert Lower(text)[..|search|] == Lower(search);
      }
    }
  }

  /** Lower-casing is idempotent. */
  lemma LowerTwice(s: string)
    ensures Lower(Lower(s)) == Lower(s)
  {
    LowerIsLower(s);
    assert forall i :: 0 <= i < |s| ==> Lower(s)[i] in Lower(s);
  }

  /** The distinct strings of `s` in order of first occurrence: what a `Set` filled from
      `s` yields when read back. */
  function Distinct(s: seq<string>): seq<string>
  {
    if s == [] then []
    else
      var d := Distinct(s[..|s| - 1]);
      if s[|s| - 1] in d then d else d + [s[|s| - 1]]
  }

  predicate NoDuplicates(s: seq<string>)
  {
    forall i, j :: 0 <= i < j < |s| ==> s[i] != s[j]
  }

  /** `Distinct` keeps exactly the strings of its input, once each. */
  lemma {:induction false} DistinctSpec(s: seq<string>)
    ensures NoDuplicates(Distinct(s))
    ensures forall x :: x in Distinct(s) <==> x in s
    decreases |s|
  {
    if s != [] {
      var init := s[..|s| - 1];
      DistinctSpec(init);
      assert s == init + [s[|s| - 1]];
    }
  }

  /** `Distinct` keeps the order of first occurrences: it is a subsequence of its input. */
  lemma {:induction false} DistinctInOrder(s: seq<string>)
    ensures IsSubsequence(Distinct(s), s)
    decreases |s|
  {
    if s != [] {
      var init := s[..|s| - 1];
      DistinctInOrder(init);
      SubsequenceExtend(Distinct(init), init, s[|s| - 1]);
      assert s == init + [s[|s| - 1]];
    }
  }

  /** A subsequence stays one when the same element is appended to both, and when it is
      appended to the larger one only. */
  lemma {:induction false} SubsequenceExtend(a: seq<string>, b: seq<string>, x: string)
    requires IsSubsequence(a, b)
    ensures IsSubsequence(a + [x], b + [x])
    ensures IsSubsequence(a, b + [x])
    decreases |b|
  {
    if b == [] {
      assert (a + [x])[1..] == [];
    } else if a == [] {
      SubsequenceExtend(a, b[1..], x);
      assert (b + [x])[1..] == b[1..] + [x];
    } else {
      assert (b + [x])[1..] == b[1..] + [x];
      assert (a + [x])[1..] == a[1..] + [x];
      if a[0] == b[0] && IsSubsequence(a[1..], b[1..]) {
        SubsequenceExtend(a[1..], b[1..], x);
      } else {
        SubsequenceExtend(a, b[1..], x);
      }
    }
  }


  /** `categories`: "all", then every category of the catalogue once, in order of first
      appearance; the `forEach` that fills the set is the loop. */
  method Categories(tests: seq<MockTest>) returns (categories: seq<string>)
    ensures categories == ["all"] + Distinct(seq(|tests|, i requires 0 <= i < |tests| => tests[i].category))
  {
    var seen: seq<string> := [];
    var i := 0;
    ghost var cats := seq(|tests|, i requires 0 <= i < |tests| => tests[i].category);
    while i < |tests|
      invariant 0 <= i <= |tests|
      invariant seen == Distinct(cats[..i])
    {
      assert cats[..i + 1][..i] == cats[..i];
      if tests[i].category !in seen {
        seen := seen + [tests[i].category];
      }
      i := i + 1;
    }
    assert cats[..|tests|] == cats;
    categories := ["all"] + seen;
  }

  /** The options start with "all", offer every category of the catalogue, list nothing
      else, and after "all" name each category once, in order of first appearance. */
  lemma CategoriesSpec(tests: seq<MockTest>)
    ensures var cats := seq(|tests|, i requires 0 <= i < |tests| => tests[i].category);
            var options := ["all"] + Distinct(cats);
      && options[0] == "all"
      && (forall i :: 0 <= i < |tests| ==> tests[i].category in options)
      && (forall c :: c in options[1..] ==> exists i :: 0 <= i < |tests| && tests[i].category == c)
      && NoDuplicates(options[1..])
      && IsSubsequence(options[1..], cats)
  {
    var cats := seq(|tests|, i requires 0 <= i < |tests| => tests[i].category);
    var options := ["all"] + Distinct(cats);
    DistinctSpec(cats);
    DistinctInOrder(cats);
    assert options[1..] == Distinct(cats);
    forall i | 0 <= i < |tests| ensures tests[i].category in options {
      assert cats[i] in cats;
    }
    forall c | c in options[1..] ensures exists i :: 0 <= i < |tests| && tests[i].category == c {
      assert c in cats;
      var i :| 0 <= i < |cats| && cats[i] == c;
      assert tests[i].category == c;
    }
  }
}
