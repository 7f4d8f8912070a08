/** The exam session engine (components/TestRunner.tsx): the countdown, the two-level
    cursor over sections and questions, one response per question, the submitted marker,
    and the pure computations the component derives from them. Wall-clock time enters as
    the `nowMs` parameter of `Tick` and `ResetBaseline`; `calculateScore` is a function
    handed to the session, since the scoring library is not part of this model. */
module TestRunner {
  import opened Wrappers
  import opened Types
  import opened Text
  import opened Storage
  import Seqs

  // ---------------------------------------------------------------------------
  // Countdown

  datatype TimerState = TimerState(remainingSeconds: nat, isExpired: bool)

  /** The countdown update of one interval callback. */
  function TickTimer(t: TimerState): (r: TimerState)
    ensures r.remainingSeconds <= t.remainingSeconds
    ensures t.isExpired ==> r == t
    ensures r.isExpired <==> t.isExpired || t.remainingSeconds <= 1
    ensures r.isExpired && !t.isExpired ==> r.remainingSeconds == 0
    ensures !r.isExpired ==> r.remainingSeconds == t.remainingSeconds - 1
  {
    if t.isExpired then t
    else if t.remainingSeconds <= 1 then TimerState(0, true)
    else TimerState(t.remainingSeconds - 1, false)
  }

  /** The countdown after `n` interval callbacks. */
  function Ticks(t: TimerState, n: nat): TimerState
  {
    if n == 0 then t else TickTimer(Ticks(t, n - 1))
  }

  /** From a fresh countdown of `seconds`, the n-th tick leaves `seconds - n` while that is
      positive, and from then on zero with the expired flag set: the countdown never goes
      below zero and the flag is raised exactly at the tick that reaches zero. */
  lemma {:induction false} TicksFromStart(seconds: nat, n: nat)
    ensures Ticks(TimerState(seconds, false), n) ==
      if n == 0 then TimerState(seconds, false)
      else if n < seconds then TimerState(seconds - n, false)
      else TimerState(0, true)
  {
    if n > 0 {
      TicksFromStart(seconds, n - 1);
    }
  }

  /** Once expired, the countdown stays exactly as it is. */
  lemma {:induction false} ExpiredIsSticky(t: TimerState, n: nat)
    requires t.isExpired
    ensures Ticks(t, n) == t
  {
    if n > 0 {
      ExpiredIsSticky(t, n - 1);
    }
  }

  /** `Math.round((now - previous) / 1000)` on whole milliseconds; halves round up. */
  function ElapsedSeconds(previousMs: int, nowMs: int): (d: int)
    ensures d * 1000 - 500 <= nowMs - previousMs < d * 1000 + 500
  {
    (nowMs - previousMs + 500) / 1000
  }

  // ---------------------------------------------------------------------------
  // Responses

  /** The fresh response of a question: no choice, not marked, no time spent. */
  function InitialResponse(q: Question): QuestionResponse
  {
    QuestionResponse(q.id, None, false, 0)
  }

  /** The responses a session starts with. */
  function InitialResponses(sections: seq<Section>): (rs: seq<QuestionResponse>)
    ensures |rs| == |Questions(sections)|
    ensures forall i :: 0 <= i < |rs| ==> rs[i] == QuestionResponse(Questions(sections)[i].id, None, false, 0)
  {
    if sections == [] then []
    else
      var qs := sections[0].questions;
      seq(|qs|, j requires 0 <= j < |qs| => InitialResponse(qs[j])) + InitialResponses(sections[1..])
  }

  /** The updaters handed to `updateResponse`, and the time credit of the tick. */
  datatype ResponseUpdate = Choose(choiceId: string) | ToggleReview | Credit(seconds: nat)

  function ApplyUpdate(r: QuestionResponse, u: ResponseUpdate): QuestionResponse
  {
    match u
    case Choose(c) => r.(choiceId := Some(c))
    case ToggleReview => r.(markedForReview := !r.markedForReview)
    case Credit(d) => r.(timeSpentSeconds := r.timeSpentSeconds + d)
  }

  /** `responses.map(r => r.questionId === questionId ? updater(r) : r)`: every response with
      that question id is updated, every other one is left identical, and no response
      changes its question id. */
  function UpdateResponse(rs: seq<QuestionResponse>, questionId: string, u: ResponseUpdate): (r: seq<QuestionResponse>)
    ensures |r| == |rs|
    ensures forall i :: 0 <= i < |rs| ==> r[i].questionId == rs[i].questionId
    ensures forall i :: 0 <= i < |rs| && rs[i].questionId != questionId ==> r[i] == rs[i]
    ensures forall i :: 0 <= i < |rs| && rs[i].questionId == questionId ==> r[i] == ApplyUpdate(rs[i], u)
  {
    seq(|rs|, i requires 0 <= i < |rs| => if rs[i].questionId == questionId then ApplyUpdate(rs[i], u) else rs[i])
  }

  /** `k` is the one response of its question. */
  predicate OnlyResponseOf(rs: seq<QuestionResponse>, k: nat)
  {
    k < |rs| && forall i :: 0 <= i < |rs| && i != k ==> rs[i].questionId != rs[k].questionId
  }

  lemma UpdateSingle(rs: seq<QuestionResponse>, k: nat, u: ResponseUpdate)
    requires OnlyResponseOf(rs, k)
    ensures UpdateResponse(rs, rs[k].questionId, u) == rs[k := ApplyUpdate(rs[k], u)]
  {
  }

  /** Toggling the review flag twice restores the responses. */
  lemma ToggleTwice(rs: seq<QuestionResponse>, questionId: string)
    ensures UpdateResponse(UpdateResponse(rs, questionId, ToggleReview), questionId, ToggleReview) == rs
  {
    var once := UpdateResponse(rs, questionId, ToggleReview);
    var twice := UpdateResponse(once, questionId, ToggleReview);
    forall i | 0 <= i < |rs| ensures twice[i] == rs[i] {
      if rs[i].questionId == questionId {
        assert once[i] == rs[i].(markedForReview := !rs[i].markedForReview);
      }
    }
  }

  /** Selecting the same choice again changes nothing. */
  lemma SelectTwice(rs: seq<QuestionResponse>, questionId: string, choiceId: string)
    ensures UpdateResponse(UpdateResponse(rs, questionId, Choose(choiceId)), questionId, Choose(choiceId))
         == UpdateResponse(rs, questionId, Choose(choiceId))
  {
  }

  /** The truthiness of `response.choiceId`: present and not the empty string. */
  predicate IsAnswered(r: QuestionResponse)
  {
    r.choiceId.Some? && r.choiceId.value != ""
  }

  predicate IsMarked(r: QuestionResponse)
  {
    r.markedForReview
  }

  /** `responses.filter((response) => response.choiceId).length` */
  function AttemptedCount(rs: seq<QuestionResponse>): (n: nat)
    ensures n <= |rs|
  {
    Seqs.Count(IsAnswered, rs)
  }

  /** `responses.filter((response) => response.markedForReview).length` */
  function MarkedCount(rs: seq<QuestionResponse>): (n: nat)
    ensures n <= |rs|
  {
    Seqs.Count(IsMarked, rs)
  }

  /** A new session has nothing attempted and nothing marked. */
  lemma InitialCounts(sections: seq<Section>)
    ensures AttemptedCount(InitialResponses(sections)) == 0
    ensures MarkedCount(InitialResponses(sections)) == 0
  {
    var rs := InitialResponses(sections);
    Seqs.FilterKeepsNone(IsAnswered, rs);
    Seqs.FilterKeepsNone(IsMarked, rs);
  }

  /** Selecting a non-empty choice for a question answered only by response `k` makes it
      attempted: the attempted count grows by one if it was unanswered and stays otherwise;
      the review count does not move. */
  lemma SelectChoiceCounts(rs: seq<QuestionResponse>, k: nat, choiceId: string)
    requires OnlyResponseOf(rs, k)
    requires choiceId != ""
    ensures AttemptedCount(UpdateResponse(rs, rs[k].questionId, Choose(choiceId)))
         == AttemptedCount(rs) + (if IsAnswered(rs[k]) then 0 else 1)
    ensures MarkedCount(UpdateResponse(rs, rs[k].questionId, Choose(choiceId))) == MarkedCount(rs)
  {
    var v := ApplyUpdate(rs[k], Choose(choiceId));
    UpdateSingle(rs, k, Choose(choiceId));
    Seqs.CountAfterUpdate(IsAnswered, rs, k, v);
    Seqs.CountAfterUpdate(IsMarked, rs, k, v);
  }

  /** Toggling the review flag of the question answered only by response `k` moves the
      review count by exactly one, up or down, and leaves the attempted count. */
  lemma ToggleCounts(rs: seq<QuestionResponse>, k: nat)
    requires OnlyResponseOf(rs, k)
    ensures MarkedCount(UpdateResponse(rs, rs[k].questionId, ToggleReview))
         == if rs[k].markedForReview then MarkedCount(rs) - 1 else MarkedCount(rs) + 1
    ensures AttemptedCount(UpdateResponse(rs, rs[k].questionId, ToggleReview)) == AttemptedCount(rs)
  {
    var v := ApplyUpdate(rs[k], ToggleReview);
    UpdateSingle(rs, k, ToggleReview);
    Seqs.CountAfterUpdate(IsAnswered, rs, k, v);
    Seqs.CountAfterUpdate(IsMarked, rs, k, v);
  }

  /** The time recorded over all responses. */
  function TotalTimeSpent(rs: seq<QuestionResponse>): nat
  {
    if rs == [] then 0 else rs[0].timeSpentSeconds + TotalTimeSpent(rs[1..])
  }

  lemma {:induction false} TotalTimeAfterUpdate(rs: seq<QuestionResponse>, k: nat, v: QuestionResponse)
    requires k < |rs|
    ensures TotalTimeSpent(rs[k := v]) == TotalTimeSpent(rs) - rs[k].timeSpentSeconds + v.timeSpentSeconds
    decreases |rs|
  {
    if k > 0 {
      assert rs[k := v][1..] == rs[1..][k - 1 := v];
      TotalTimeAfterUpdate(rs[1..], k - 1, v);
    } else {
      assert rs[k := v][1..] == rs[1..];
    }
  }

  /** Crediting `d` seconds to a question answered by one response adds exactly `d` seconds
      to the total time recorded. */
  lemma CreditAddsToTotal(rs: seq<QuestionResponse>, k: nat, d: nat)
    requires OnlyResponseOf(rs, k)
    ensures TotalTimeSpent(UpdateResponse(rs, rs[k].questionId, Credit(d))) == TotalTimeSpent(rs) + d
  {
    UpdateSingle(rs, k, Credit(d));
    TotalTimeAfterUpdate(rs, k, ApplyUpdate(rs[k], Credit(d)));
  }

  // ---------------------------------------------------------------------------
  // Cursor

  /** `(currentSectionIndex, currentQuestionIndex)` */
  datatype Cursor = Cursor(section: int, question: int)

  predicate InBounds(sections: seq<Section>, c: Cursor)
  {
    0 <= c.section < |sections| && 0 <= c.question < |sections[c.section].questions|
  }

  /** The position of a cursor in the flattened question list. */
  function FlatIndex(sections: seq<Section>, c: Cursor): int
    requires 0 <= c.section <= |sections|
  {
    |Questions(sections[..c.section])| + c.question
  }

  lemma QuestionsSplitAt(sections: seq<Section>, s: nat)
    requires s < |sections|
    ensures Questions(sections) == Questions(sections[..s]) + sections[s].questions + Questions(sections[s + 1..])
    ensures Questions(sections[..s + 1]) == Questions(sections[..s]) + sections[s].questions
  {
    var pre, suf := sections[..s], sections[s..];
    assert sections == pre + suf;
    QuestionsConcat(pre, suf);
    assert Questions(suf) == sections[s].questions + Questions(sections[s + 1..]) by {
      assert suf[0] == sections[s] && suf[1..] == sections[s + 1..];
    }
    QuestionsSnoc(sections, s);
  }

  /** The questions up to and including section `s` end with that section's questions. */
  lemma QuestionsSnoc(sections: seq<Section>, s: nat)
    requires s < |sections|
    ensures Questions(sections[..s + 1]) == Questions(sections[..s]) + sections[s].questions
  {
    var pre, last := sections[..s], [sections[s]];
    assert sections[..s + 1] == pre + last;
    QuestionsConcat(pre, last);
    assert Questions(last) == sections[s].questions by {
      assert last[1..] == [];
    }
  }

  /** An in-bounds cursor designates the question at its flat index. */
  lemma FlatIndexLocates(sections: seq<Section>, c: Cursor)
    requires InBounds(sections, c)
    ensures 0 <= FlatIndex(sections, c) < |Questions(sections)|
    ensures Questions(sections)[FlatIndex(sections, c)] == sections[c.section].questions[c.question]
  {
    var pre, here, post := Questions(sections[..c.section]), sections[c.section].questions, Questions(sections[c.section + 1..]);
    QuestionsSplitAt(sections, c.section);
    IndexInMiddle(pre, here, post, c.question);
    assert FlatIndex(sections, c) == |pre| + c.question;
  }

  /** Position `|pre| + j` of `pre + here + post` is position `j` of `here`. */
  lemma IndexInMiddle<T>(pre: seq<T>, here: seq<T>, post: seq<T>, j: int)
    requires 0 <= j < |here|
    ensures 0 <= |pre| + j < |pre + here + post| && (pre + here + post)[|pre| + j] == here[j]
  {
  }

  /** `goToNextQuestion`: the next question of the section, else the first question of the
      next section, else no move. */
  function NextCursor(sections: seq<Section>, c: Cursor): (r: Cursor)
    requires 0 <= c.section < |sections|
    ensures RunnableSections(sections) && InBounds(sections, c) ==> InBounds(sections, r)
    ensures r == c <==> c.question >= |sections[c.section].questions| - 1 && c.section >= |sections| - 1
  {
    if c.question < |sections[c.section].questions| - 1 then Cursor(c.section, c.question + 1)
    else if c.section < |sections| - 1 then Cursor(c.section + 1, 0)
    else c
  }

  /** `goToPreviousQuestion`: the previous question of the section, else the last question of
      the previous section, else no move. */
  function PrevCursor(sections: seq<Section>, c: Cursor): (r: Cursor)
    requires 0 <= c.section < |sections|
    ensures RunnableSections(sections) && InBounds(sections, c) ==> InBounds(sections, r)
    ensures r == c <==> c.question <= 0 && c.section <= 0
  {
    if c.question > 0 then Cursor(c.section, c.question - 1)
    else if c.section > 0 then Cursor(c.section - 1, |sections[c.section - 1].questions| - 1)
    else c
  }

  /** Over sections that all hold a question, "next" moves exactly one place forward in the
      flattened question list, except at the last question, where it stays. */
  lemma NextStepsForward(sections: seq<Section>, c: Cursor)
    requires RunnableSections(sections) && InBounds(sections, c)
    ensures FlatIndex(sections, NextCursor(sections, c)) ==
      if FlatIndex(sections, c) == |Questions(sections)| - 1 then FlatIndex(sections, c) else FlatIndex(sections, c) + 1
  {
    var s := c.section;
    QuestionsSplitAt(sections, s);
    if c.question == |sections[s].questions| - 1 && s < |sections| - 1 {
      QuestionsSplitAt(sections, s + 1);
      assert Questions(sections[s + 1..]) == sections[s + 1].questions + Questions(sections[s + 2..]) by {
        assert sections[s + 1..][1..] == sections[s + 2..];
      }
    } else if c.question == |sections[s].questions| - 1 {
      assert sections[s + 1..] == [];
    }
  }

  /** Over sections that all hold a question, "previous" moves exactly one place back in the
      flattened question list, except at the first question, where it stays. */
  lemma PrevStepsBack(sections: seq<Section>, c: Cursor)
    requires RunnableSections(sections) && InBounds(sections, c)
    ensures FlatIndex(sections, PrevCursor(sections, c)) ==
      if FlatIndex(sections, c) == 0 then 0 else FlatIndex(sections, c) - 1
  {
    var s := c.section;
    QuestionsSplitAt(sections, s);
    if c.question == 0 && s > 0 {
      QuestionsSplitAt(sections, s - 1);
    } else if c.question == 0 {
      assert sections[..s] == [];
    }
  }

  /** "Previous" undoes "next" everywhere but at the last question. */
  lemma PrevUndoesNext(sections: seq<Section>, c: Cursor)
    requires RunnableSections(sections) && InBounds(sections, c)
    requires NextCursor(sections, c) != c
    ensures PrevCursor(sections, NextCursor(sections, c)) == c
  {
  }

  /** "Next" undoes "previous" everywhere but at the first question. */
  lemma NextUndoesPrev(sections: seq<Section>, c: Cursor)
    requires RunnableSections(sections) && InBounds(sections, c)
    requires PrevCursor(sections, c) != c
    ensures NextCursor(sections, PrevCursor(sections, c)) == c
  {
  }

  // ---------------------------------------------------------------------------
  // Display

  /** `formatTime`: whole minutes and remaining seconds, each padded to two digits, around a
      colon. */
  function FormatTime(seconds: nat): (t: string)
    ensures |t| >= 5 && t[|t| - 3] == ':'
    ensures AllDigits(t[..|t| - 3]) && AllDigits(t[|t| - 2..])
  {
    Colon(Padded(seconds / 60), Padded(seconds % 60))
  }

  /** `String(n).padStart(2, "0")`: at least two digits that read back to `n`, exactly two
      below one hundred. */
  function Padded(n: nat): (r: string)
    ensures |r| >= 2 && AllDigits(r) && DecimalValue(r) == n
    ensures |r| == 2 <==> n < 100
    ensures n >= 10 ==> r[0] != '0'
  {
    NatToStringShort(n);
    NatToStringValue(n);
    PadStart2Value(NatToString(n));
    PadStart2(NatToString(n))
  }

  /** Two digit strings around a colon, the second of width two: what stands on either side
      of the colon reads back to the two numbers. */
  function Colon(a: string, b: string): (t: string)
    requires |b| == 2 && AllDigits(a) && AllDigits(b)
    ensures |t| == |a| + 3 && t[|t| - 3] == ':'
    ensures AllDigits(t[..|t| - 3]) && AllDigits(t[|t| - 2..])
    ensures DecimalValue(t[..|t| - 3]) == DecimalValue(a)
    ensures DecimalValue(t[|t| - 2..]) == DecimalValue(b)
  {
    var t := a + ":" + b;
    assert t[..|t| - 3] == a;
    assert t[|t| - 2..] == b;
    t
  }

  /** Reading the two numbers of `formatTime` back gives the seconds again, the seconds
      part stays below a minute, and the display is five characters long exactly while the
      minutes fit in two digits. */
  lemma FormatTimeReadsBack(seconds: nat)
    ensures var t := FormatTime(seconds);
      && DecimalValue(t[|t| - 2..]) < 60
      && DecimalValue(t[..|t| - 3]) * 60 + DecimalValue(t[|t| - 2..]) == seconds
      && (seconds < 6000 <==> |t| == 5)
  {
    MinutesAndSeconds(seconds);
  }

  /** The whole minutes and the remaining seconds of a duration. */
  lemma MinutesAndSeconds(seconds: nat)
    ensures (seconds / 60) * 60 + seconds % 60 == seconds && seconds % 60 < 60
    ensures seconds / 60 < 100 <==> seconds < 6000
  {
  }

  function ResponseFor(questionId: string): QuestionResponse -> bool
  {
    (r: QuestionResponse) => r.questionId == questionId
  }

  function ChoiceWithId(choiceId: string): Choice -> bool
  {
    (c: Choice) => c.id == choiceId
  }

  function IsCorrectChoice(c: Choice): bool
  {
    c.isCorrect
  }

  /** `question.choices.find((choice) => choice.id === response?.choiceId)` */
  function SelectedChoice(q: Question, response: Option<QuestionResponse>): Option<Choice>
  {
    if response.Some? && response.value.choiceId.Some? then Seqs.FindFirst(ChoiceWithId(response.value.choiceId.value), q.choices)
    else None
  }

  /** `question.choices.find((choice) => choice.isCorrect)` */
  function CorrectChoice(q: Question): Option<Choice>
  {
    Seqs.FindFirst(IsCorrectChoice, q.choices)
  }

  function IdOf(c: Option<Choice>): Option<string>
  {
    if c.Some? then Some(c.value.id) else None
  }

  /** The feedback verdict `selectedChoice?.id === correctChoice?.id` of the completed view,
      for the response `responses.find((item) => item.questionId === question.id)`. */
  predicate FeedbackCorrect(q: Question, rs: seq<QuestionResponse>)
  {
    IdOf(SelectedChoice(q, Seqs.FindFirst(ResponseFor(q.id), rs))) == IdOf(CorrectChoice(q))
  }

  /** When the question flags a correct choice, the verdict is "correct" exactly when the
      question's first response selected that choice's id. */
  lemma FeedbackWithCorrectChoice(q: Question, rs: seq<QuestionResponse>)
    requires CorrectChoice(q).Some?
    ensures FeedbackCorrect(q, rs) <==>
      var r := Seqs.FindFirst(ResponseFor(q.id), rs);
      r.Some? && r.value.choiceId == Some(CorrectChoice(q).value.id)
  {
    var r := Seqs.FindFirst(ResponseFor(q.id), rs);
    var correct := CorrectChoice(q).value;
    if r.Some? && r.value.choiceId == Some(correct.id) {
      assert ChoiceWithId(correct.id)(correct);
      var sel := SelectedChoice(q, r);
      assert sel.Some?;
      assert ChoiceWithId(correct.id)(sel.value);
    }
    if FeedbackCorrect(q, rs) {
      var sel := SelectedChoice(q, r);
      assert sel.Some?;
      assert ChoiceWithId(r.value.choiceId.value)(sel.value);
    }
  }

  /** When no choice is flagged correct, the verdict is "correct" exactly when nothing was
      selected: an unanswered question then reads as correct. */
  lemma FeedbackWithoutCorrectChoice(q: Question, rs: seq<QuestionResponse>)
    requires CorrectChoice(q).None?
    ensures FeedbackCorrect(q, rs) <==> SelectedChoice(q, Seqs.FindFirst(ResponseFor(q.id), rs)).None?
  {
  }

  // ---------------------------------------------------------------------------
  // The session

  /** `calculateScore(test, responses, startedAt, completedAt)` */
  type ScoreFunction = (MockTest, seq<QuestionResponse>, string, string) -> TestAttempt

  /** Everything the session changes, for stating what an operation leaves alone. */
  datatype SessionState = SessionState(
    timer: TimerState,
    cursor: Cursor,
    responses: seq<QuestionResponse>,
    lastTick: Option<int>,
    attemptSummary: Option<TestAttempt>,
    completed: seq<TestAttempt>)

  class Session {
    const test: MockTest
    const startedAt: string
    const calculateScore: ScoreFunction
    var timer: TimerState
    var currentSectionIndex: int
    var currentQuestionIndex: int
    var responses: seq<QuestionResponse>
    var lastTick: Option<int>
    /** The submitted marker: the scored attempt once the test is submitted. */
    var attemptSummary: Option<TestAttempt>
    /** The attempts handed to `onComplete`, in order. */
    var completed: seq<TestAttempt>

    /** The cursor is on a question, there is one response per question in flattened order,
        an expired countdown is at zero, and an attempt has been handed on exactly when the
        test was submitted, and only once. */
    ghost predicate Valid()
      reads this
    {
      && RunnableSections(test.sections)
      && InBounds(test.sections, Cursor(currentSectionIndex, currentQuestionIndex))
      && |responses| == |Questions(test.sections)|
      && (forall i :: 0 <= i < |responses| ==> responses[i].questionId == Questions(test.sections)[i].id)
      && (timer.isExpired ==> timer.remainingSeconds == 0)
      && completed == (if attemptSummary.Some? then [attemptSummary.value] else [])
    }

    function State(): SessionState
      reads this
    {
      SessionState(timer, Cursor(currentSectionIndex, currentQuestionIndex), responses, lastTick, attemptSummary, completed)
    }

    /** The question under the cursor, which is the one at the cursor's flat index. */
    function CurrentQuestion(): (q: Question)
      reads this
      requires Valid()
      ensures (var c := Cursor(currentSectionIndex, currentQuestionIndex);
               FlatIndexLocates(test.sections, c);
               q == Questions(test.sections)[FlatIndex(test.sections, c)])
    {
      FlatIndexLocates(test.sections, Cursor(currentSectionIndex, currentQuestionIndex));
      test.sections[currentSectionIndex].questions[currentQuestionIndex]
    }

    /** The component's initial state: a full countdown, the first question, fresh
        responses, no tick baseline and nothing submitted. */
    constructor (test: MockTest, startedAt: string, calculateScore: ScoreFunction)
      requires RunnableSections(test.sections)
      ensures Valid()
      ensures this.test == test && this.startedAt == startedAt && this.calculateScore == calculateScore
      ensures State() == SessionState(TimerState(test.durationMinutes * 60, false), Cursor(0, 0),
                                       InitialResponses(test.sections), None, None, [])
    {
      this.test := test;
      this.startedAt := startedAt;
      this.calculateScore := calculateScore;
      timer := TimerState(test.durationMinutes * 60, false);
      currentSectionIndex := 0;
      currentQuestionIndex := 0;
      responses := InitialResponses(test.sections);
      lastTick := None;
      attemptSummary := None;
      completed := [];
    }

    /** The set-up of the tick effect, run on mount, whenever the current question changes
        and when the submitted marker is set: before submission it takes `nowMs` as the new
        baseline; after it, it does nothing. */
    method ResetBaseline(nowMs: int)
      requires Valid()
      modifies this
      ensures Valid()
      ensures State() == if old(attemptSummary).Some? then old(State()) else old(State()).(lastTick := Some(nowMs))
    {
      if attemptSummary.Some? {
        return;
      }
      lastTick := Some(nowMs);
    }

    /** One interval callback at wall-clock time `nowMs`. An expired countdown is left as it
        is and nothing else happens. Otherwise the rounded seconds since the baseline are
        credited to the current question when positive (and when there is a baseline: a
        missing or zero one is only replaced), the baseline becomes `nowMs`, and the
        countdown ticks. The interval is cleared on submission, so no tick follows it. */
    method Tick(nowMs: int)
      requires Valid() && attemptSummary.None?
      modifies this
      ensures Valid()
      ensures old(timer.isExpired) ==> State() == old(State())
      ensures !old(timer.isExpired) ==>
        var credit := if old(lastTick).Some? && old(lastTick).value != 0
                      then ElapsedSeconds(old(lastTick).value, nowMs) else 0;
        State() == old(State()).(
          timer := TickTimer(old(timer)),
          lastTick := Some(nowMs),
          responses := if credit > 0 then UpdateResponse(old(responses), old(CurrentQuestion()).id, Credit(credit))
                       else old(responses))
    {
      if timer.isExpired {
        return;
      }
      var current := CurrentQuestion();
      if lastTick.Some? && lastTick.value != 0 {
        var diff := ElapsedSeconds(lastTick.value, nowMs);
        if diff > 0 {
          responses := UpdateResponse(responses, current.id, Credit(diff));
        }
      }
      lastTick := Some(nowMs);
      if timer.remainingSeconds <= 1 {
        timer := TimerState(0, true);
      } else {
        timer := TimerState(timer.remainingSeconds - 1, false);
      }
    }

    /** `goToQuestion`, offered by the question navigator for existing positions only. */
    method GoToQuestion(sectionIndex: int, questionIndex: int)
      requires Valid() && attemptSummary.None?
      requires InBounds(test.sections, Cursor(sectionIndex, questionIndex))
      modifies this
      ensures Valid()
      ensures State() == old(State()).(cursor := Cursor(sectionIndex, questionIndex))
    {
      currentSectionIndex := sectionIndex;
      currentQuestionIndex := questionIndex;
    }

    method GoToNextQuestion()
      requires Valid() && attemptSummary.None?
      modifies this
      ensures Valid()
      ensures State() == old(State()).(cursor := NextCursor(test.sections, old(State()).cursor))
    {
      var section := test.sections[currentSectionIndex];
      if currentQuestionIndex < |section.questions| - 1 {
        currentQuestionIndex := currentQuestionIndex + 1;
        return;
      }
      if currentSectionIndex < |test.sections| - 1 {
        currentSectionIndex := currentSectionIndex + 1;
        currentQuestionIndex := 0;
      }
    }

    method GoToPreviousQuestion()
      requires Valid() && attemptSummary.None?
      modifies this
      ensures Valid()
      ensures State() == old(State()).(cursor := PrevCursor(test.sections, old(State()).cursor))
    {
      if currentQuestionIndex > 0 {
        currentQuestionIndex := currentQuestionIndex - 1;
        return;
      }
      if currentSectionIndex > 0 {
        var prevSectionIndex := currentSectionIndex - 1;
        currentSectionIndex := prevSectionIndex;
        currentQuestionIndex := |test.sections[prevSectionIndex].questions| - 1;
      }
    }

    /** `selectChoice`: the choice of every response of that question is overwritten. */
    method SelectChoice(question: Question, choiceId: string)
      requires Valid() && attemptSummary.None?
      modifies this
      ensures Valid()
      ensures State() == old(State()).(responses := UpdateResponse(old(responses), question.id, Choose(choiceId)))
    {
      responses := UpdateResponse(responses, question.id, Choose(choiceId));
    }

    /** `toggleMarkForReview`: the review flag of every response of that question flips. */
    method ToggleMarkForReview(questionId: string)
      requires Valid() && attemptSummary.None?
      modifies this
      ensures Valid()
      ensures State() == old(State()).(responses := UpdateResponse(old(responses), questionId, ToggleReview))
    {
      responses := UpdateResponse(responses, questionId, ToggleReview);
    }

    /** `submitTest`: scores the current responses, sets the submitted marker, saves the
        attempt in front of the stored history, and hands it to `onComplete`. The submit
        button is only shown before submission and the expiry effect checks the marker, so
        it runs at most once. */
    method SubmitTest(completedAt: string, store: LocalStore)
      requires Valid() && attemptSummary.None?
      modifies this, store
      ensures Valid()
      ensures attemptSummary == Some(calculateScore(test, old(responses), startedAt, completedAt))
      ensures completed == [attemptSummary.value]
      ensures State() == old(State()).(attemptSummary := attemptSummary, completed := completed)
      ensures store.attempts == [attemptSummary.value] + old(store.attempts)
      ensures store.customTests == old(store.customTests)
    {
      var attempt := calculateScore(test, responses, startedAt, completedAt);
      attemptSummary := Some(attempt);
      var existing := store.attempts;
      store.attempts := [attempt] + existing;
      completed := completed + [attempt];
    }

    /** The expiry effect: submits when the countdown has expired and nothing was submitted
        yet; otherwise does nothing, so a second expiry never scores twice. */
    method AutoSubmit(completedAt: string, store: LocalStore) returns (submitted: bool)
      requires Valid()
      modifies this, store
      ensures Valid()
      ensures submitted <==> old(timer.isExpired) && old(attemptSummary).None?
      ensures submitted ==> attemptSummary == Some(calculateScore(test, old(responses), startedAt, completedAt))
                            && store.attempts == [attemptSummary.value] + old(store.attempts)
      ensures !submitted ==> State() == old(State()) && store.attempts == old(store.attempts)
      ensures State().responses == old(State().responses) && State().cursor == old(State().cursor)
      ensures |completed| <= 1
      ensures store.customTests == old(store.customTests)
    {
      submitted := timer.isExpired && attemptSummary.None?;
      if submitted {
        SubmitTest(completedAt, store);
      }
    }
  }
}
