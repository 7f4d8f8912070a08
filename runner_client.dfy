/** The page that runs a test (components/TestRunnerClient.tsx): it resolves the test,
    shows the newest earlier attempt, short-circuits to "Test not found", and records a
    completed attempt in the history. */
module TestRunnerClient {
  import opened Wrappers
  import opened Types
  import opened Storage
  import opened TestLookup
  import TestRunner
  import UseAttempts

  /** What the page renders: the not-found notice, or the runner with the last attempt. */
  datatype RunnerView = RunnerNotFound | RunnerPage(test: MockTest, lastAttempt: Option<TestAttempt>)

  function RunnerClientView(tests: seq<MockTest>, attempts: seq<TestAttempt>, testId: string, initialTest: Option<MockTest>): RunnerView
  {
    var test := ResolveTest(tests, testId, initialTest);
    if test.None? then RunnerNotFound else RunnerPage(test.value, LastAttempt(attempts, testId))
  }

  /** The runner is shown exactly when a test resolves: the first catalogue test with the
      page's id, else the server's test. It shows the newest attempt recorded under the id,
      and none only when the history holds no attempt of it. */
  lemma RunnerClientViewSpec(tests: seq<MockTest>, attempts: seq<TestAttempt>, testId: string, initialTest: Option<MockTest>)
    ensures var v := RunnerClientView(tests, attempts, testId, initialTest);
      && (v.RunnerNotFound? <==> initialTest.None? && forall i :: 0 <= i < |tests| ==> tests[i].id != testId)
      && (forall k :: 0 <= k < |tests| && tests[k].id == testId &&
                      (forall j :: 0 <= j < k ==> tests[j].id != testId)
                      ==> v.RunnerPage? && v.test == tests[k])
      && (initialTest.Some? && (forall i :: 0 <= i < |tests| ==> tests[i].id != testId) ==>
            v.RunnerPage? && v.test == initialTest.value)
      && (v.RunnerPage? ==> (v.lastAttempt.None? <==> forall i :: 0 <= i < |attempts| ==> attempts[i].testId != testId))
      && (v.RunnerPage? ==>
            forall k :: 0 <= k < |attempts| && attempts[k].testId == testId &&
                        (forall j :: 0 <= j < k ==> attempts[j].testId != testId)
                        ==> v.lastAttempt == Some(attempts[k]))
  {
    ResolveTestSpec(tests, testId, initialTest);
  }

  /** Submitting through the page: the runner scores and persists the attempt, then its
      `onComplete` hands it to `addAttempt`. When the history hook and storage agreed before,
      the attempt is stored once, in front of the earlier history, and the hook and storage
      still agree; the attempt is now the last one of its test. */
  method SubmitAndRecord(session: TestRunner.Session, hook: UseAttempts.AttemptsHook, completedAt: string)
    returns (attempt: TestAttempt)
    requires session.Valid() && session.attemptSummary.None?
    requires hook.Persisted()
    modifies session, hook, hook.store
    ensures session.Valid() && session.attemptSummary == Some(attempt)
    ensures attempt == session.calculateScore(session.test, old(session.responses), session.startedAt, completedAt)
    ensures hook.attempts == [attempt] + old(hook.attempts)
    ensures hook.Persisted()
    ensures LastAttempt(hook.attempts, attempt.testId) == Some(attempt)
  {
    session.SubmitTest(completedAt, hook.store);
    attempt := session.attemptSummary.value;
    hook.AddAttempt(attempt);
    assert AttemptFor(attempt.testId)(attempt);
  }
}
