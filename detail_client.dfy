/** The page that shows a test (components/TestDetailClient.tsx): the same resolution as
    the runner page, and a not-found branch instead of the detail view. */
module TestDetailClient {
  import opened Wrappers
  import opened Types
  import opened TestLookup
  import TestRunnerClient

  datatype DetailView = DetailNotFound | DetailPage(test: MockTest)

  function DetailClientView(tests: seq<MockTest>, testId: string, initialTest: Option<MockTest>): DetailView
  {
    var test := ResolveTest(tests, testId, initialTest);
    if test.None? then DetailNotFound else DetailPage(test.value)
  }

  /** The detail page and the runner page resolve the same test for the same id: one
      reports "not found" exactly when the other does, and otherwise they show the same
      test. */
  lemma DetailAgreesWithRunner(tests: seq<MockTest>, attempts: seq<TestAttempt>, testId: string, initialTest: Option<MockTest>)
    ensures var d := DetailClientView(tests, testId, initialTest);
            var r := TestRunnerClient.RunnerClientView(tests, attempts, testId, initialTest);
      && (d.DetailNotFound? <==> r.RunnerNotFound?)
      && (d.DetailPage? ==> r.RunnerPage? && d.test == r.test)
      && (d.DetailNotFound? <==> initialTest.None? && forall i :: 0 <= i < |tests| ==> tests[i].id != testId)
  {
    TestRunnerClient.RunnerClientViewSpec(tests, attempts, testId, initialTest);
  }
}
