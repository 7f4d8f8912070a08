/** The entities of the exam system. Optional fields are `Option`s; the review flag,
    optional in the source, is a `bool` whose absence reads as `false`, as every use of it
    in the core does. Numbers are naturals. A choice's `label` is called `text` here,
    because `label` is a Dafny keyword. */
module Types {
  import opened Wrappers

  datatype QuestionDifficulty = Easy | Medium | Hard

  datatype TestDifficulty = Beginner | Intermediate | Advanced

  datatype Choice = Choice(id: string, text: string, isCorrect: bool, explanation: Option<string>)

  datatype Question = Question(
    id: string,
    prompt: string,
    choices: seq<Choice>,
    difficulty: QuestionDifficulty,
    marks: nat,
    negativeMarks: Option<nat>,
    tags: Option<seq<string>>)

  datatype Section = Section(id: string, title: string, description: Option<string>, questions: seq<Question>)

  datatype MockTest = MockTest(
    id: string,
    title: string,
    description: string,
    durationMinutes: nat,
    totalMarks: nat,
    category: string,
    difficulty: TestDifficulty,
    sections: seq<Section>,
    recommendedPrep: Option<seq<string>>)

  datatype QuestionResponse = QuestionResponse(
    questionId: string,
    choiceId: Option<string>,
    markedForReview: bool,
    timeSpentSeconds: nat)

  datatype Breakdown = Breakdown(totalQuestions: nat, attempted: nat, correct: nat, incorrect: nat, unattempted: nat)

  /** Timestamps are ISO strings the model does not interpret. */
  datatype TestAttempt = TestAttempt(
    testId: string,
    startedAt: string,
    completedAt: Option<string>,
    durationSeconds: int,
    responses: seq<QuestionResponse>,
    score: int,
    breakdown: Breakdown)

  function SectionId(s: Section): string { s.id }
  function QuestionId(q: Question): string { q.id }
  function ChoiceId(c: Choice): string { c.id }
  function TestId(t: MockTest): string { t.id }

  /** `sections.flatMap((section) => section.questions)`: the flattened question list. */
  function Questions(sections: seq<Section>): (qs: seq<Question>)
    ensures sections == [] ==> qs == []
  {
    if sections == [] then [] else sections[0].questions + Questions(sections[1..])
  }

  lemma {:induction false} QuestionsConcat(a: seq<Section>, b: seq<Section>)
    ensures Questions(a + b) == Questions(a) + Questions(b)
    decreases |a|
  {
    if a == [] {
      assert a + b == b;
    } else {
      assert (a + b)[1..] == a[1..] + b;
      QuestionsConcat(a[1..], b);
    }
  }

  /** Every section holds at least one question and there is at least one section: what the
      session engine needs to index `sections[s].questions[q]`. */
  predicate RunnableSections(sections: seq<Section>)
  {
    |sections| >= 1 && forall i :: 0 <= i < |sections| ==> |sections[i].questions| >= 1
  }
}
