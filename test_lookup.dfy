/** Resolving the test of a page by id (components/TestRunnerClient.tsx and
    components/TestDetailClient.tsx): the first test in the catalogue with the id, else the
    test the server rendered, else nothing. */
module TestLookup {
  import opened Wrappers
  import opened Types
  import opened Seqs
  import UseTests

  /** `tests.find((item) => item.id === testId) ?? initialTest` */
  function ResolveTest(tests: seq<MockTest>, testId: string, initialTest: Option<MockTest>): Option<MockTest>
  {
    UseTests.FindTest(tests, testId).OrElse(initialTest)
  }

  /** The catalogue's first match wins; without a match the server's test is used; nothing
      is resolved only when both are missing. */
  lemma ResolveTestSpec(tests: seq<MockTest>, testId: string, initialTest: Option<MockTest>)
    ensures var r := ResolveTest(tests, testId, initialTest);
      && (r.None? <==> initialTest.None? && forall i :: 0 <= i < |tests| ==> tests[i].id != testId)
      && (forall k :: 0 <= k < |tests| && tests[k].id == testId && (forall j :: 0 <= j < k ==> tests[j].id != testId)
            ==> r == Some(tests[k]))
      && ((forall i :: 0 <= i < |tests| ==> tests[i].id != testId) ==> r == initialTest)
  {
    var p := UseTests.HasId(testId);
    forall k | 0 <= k < |tests| && tests[k].id == testId && (forall j :: 0 <= j < k ==> tests[j].id != testId)
      ensures FindIndex(p, tests) == k
    {
      assert p(tests[k]);
    }
  }

  function AttemptFor(testId: string): TestAttempt -> bool
  {
    (a: TestAttempt) => a.testId == testId
  }

  /** `attempts.find((item) => item.testId === testId) ?? null`: the newest attempt of the
      test, since the history keeps the newest first. */
  function LastAttempt(attempts: seq<TestAttempt>, testId: string): (r: Option<TestAttempt>)
    ensures r.Some? ==> r.value.testId == testId && r.value in attempts
    ensures r.None? <==> forall i :: 0 <= i < |attempts| ==> attempts[i].testId != testId
    ensures forall k :: 0 <= k < |attempts| && attempts[k].testId == testId &&
                       (forall j :: 0 <= j < k ==> attempts[j].testId != testId)
                       ==> r == Some(attempts[k])
  {
    FindFirst(AttemptFor(testId), attempts)
  }

  /** Right after an attempt is added to the history, it is the last attempt of its test,
      and the last attempt of every other test is as before. */
  lemma LastAttemptAfterAdd(attempts: seq<TestAttempt>, a: TestAttempt, otherId: string)
    requires otherId != a.testId
    ensures LastAttempt([a] + attempts, a.testId) == Some(a)
    ensures LastAttempt([a] + attempts, otherId) == LastAttempt(attempts, otherId)
  {
    var s := [a] + attempts;
    assert AttemptFor(a.testId)(s[0]);
    assert s[1..] == attempts;
    FindFirstTail(AttemptFor(otherId), s);
  }
}
