/** The authoring tree of the test builder (components/TestBuilder.tsx): sections hold
    questions, questions hold choices, and every edit is a keyed update of that tree.
    Fresh ids (`uuid()`) are parameters; where an operation needs them to be new, the
    lemmas ask for it. */
module TestBuilder {
  import opened Wrappers
  import opened Types
  import opened Text
  import opened Seqs

  // ---------------------------------------------------------------------------
  // Well-formed trees

  /** At least two choices, with distinct ids. */
  predicate ValidQuestion(q: Question)
  {
    |q.choices| >= 2 && UniqueKeys(q.choices, ChoiceId)
  }

  /** At least one question, with distinct ids, each well formed. */
  predicate ValidSection(s: Section)
  {
    && |s.questions| >= 1
    && UniqueKeys(s.questions, QuestionId)
    && forall j :: 0 <= j < |s.questions| ==> ValidQuestion(s.questions[j])
  }

  /** The minimum sizes the editor keeps (one section, one question per section, two
      choices per question), with ids unique among siblings. */
  predicate ValidTree(ss: seq<Section>)
  {
    && |ss| >= 1
    && UniqueKeys(ss, SectionId)
    && forall i :: 0 <= i < |ss| ==> ValidSection(ss[i])
  }

  /** A well-formed tree can be run: every section holds a question. */
  lemma ValidTreeIsRunnable(ss: seq<Section>)
    requires ValidTree(ss)
    ensures RunnableSections(ss)
  {
  }

  // ---------------------------------------------------------------------------
  // New parts

  function EmptyChoice(choiceId: string, isCorrect: bool): Choice
  {
    Choice(choiceId, "", isCorrect, None)
  }

  /** `defaultQuestion()`: an empty easy question worth one mark, no negative marking, no
      tags, and two empty choices of which only the first is correct. */
  function DefaultQuestion(questionId: string, firstChoiceId: string, secondChoiceId: string): (q: Question)
    ensures q.id == questionId && q.prompt == ""
    ensures q.marks == 1 && q.negativeMarks == Some(0) && q.tags == Some([])
    ensures |q.choices| == 2 && q.choices[0].isCorrect && !q.choices[1].isCorrect
    ensures forall k :: 0 <= k < |q.choices| ==> q.choices[k].text == ""
    ensures firstChoiceId != secondChoiceId <==> ValidQuestion(q)
  {
    Question(questionId, "", [EmptyChoice(firstChoiceId, true), EmptyChoice(secondChoiceId, false)],
             Easy, 1, Some(0), Some([]))
  }

  /** The section the builder adds when it already holds `count` sections: titled
      "Section {count + 1}", no description, one default question. */
  function NewSection(sectionId: string, count: nat, questionId: string, firstChoiceId: string, secondChoiceId: string): Section
  {
    Section(sectionId, "Section " + NatToString(count + 1), Some(""),
            [DefaultQuestion(questionId, firstChoiceId, secondChoiceId)])
  }

  // ---------------------------------------------------------------------------
  // Total marks

  /** The marks of a list of questions. */
  function MarksSum(qs: seq<Question>): nat
  {
    if qs == [] then 0 else qs[0].marks + MarksSum(qs[1..])
  }

  /** `totalMarks`: the per-section sums of marks, added up. */
  function TotalMarks(ss: seq<Section>): nat
  {
    if ss == [] then 0 else MarksSum(ss[0].questions) + TotalMarks(ss[1..])
  }

  lemma {:induction false} MarksSumConcat(a: seq<Question>, b: seq<Question>)
    ensures MarksSum(a + b) == MarksSum(a) + MarksSum(b)
    decreases |a|
  {
    if a == [] {
      assert a + b == b;
    } else {
      assert (a + b)[1..] == a[1..] + b;
      MarksSumConcat(a[1..], b);
    }
  }

  /** The nested sum equals the sum of marks over the flattened question list. */
  lemma {:induction false} TotalMarksFlat(ss: seq<Section>)
    ensures TotalMarks(ss) == MarksSum(Questions(ss))
    decreases |ss|
  {
    if ss != [] {
      TotalMarksFlat(ss[1..]);
      MarksSumConcat(ss[0].questions, Questions(ss[1..]));
    }
  }

  lemma {:induction false} TotalMarksConcat(a: seq<Section>, b: seq<Section>)
    ensures TotalMarks(a + b) == TotalMarks(a) + TotalMarks(b)
    decreases |a|
  {
    if a == [] {
      assert a + b == b;
    } else {
      assert (a + b)[1..] == a[1..] + b;
      TotalMarksConcat(a[1..], b);
    }
  }

  lemma {:induction false} TotalMarksAfterUpdate(ss: seq<Section>, k: nat, s: Section)
    requires k < |ss|
    ensures TotalMarks(ss[k := s]) == TotalMarks(ss) - MarksSum(ss[k].questions) + MarksSum(s.questions)
    decreases |ss|
  {
    if k == 0 {
      assert ss[k := s][1..] == ss[1..];
    } else {
      assert ss[k := s][1..] == ss[1..][k - 1 := s];
      TotalMarksAfterUpdate(ss[1..], k - 1, s);
    }
  }

  lemma {:induction false} MarksSumAfterUpdate(qs: seq<Question>, k: nat, q: Question)
    requires k < |qs|
    ensures MarksSum(qs[k := q]) == MarksSum(qs) - qs[k].marks + q.marks
    decreases |qs|
  {
    if k == 0 {
      assert qs[k := q][1..] == qs[1..];
    } else {
      assert qs[k := q][1..] == qs[1..][k - 1 := q];
      MarksSumAfterUpdate(qs[1..], k - 1, q);
    }
  }

  // ---------------------------------------------------------------------------
  // Section operations

  /** `addSection` */
  function AddSection(ss: seq<Section>, sectionId: string, questionId: string, firstChoiceId: string, secondChoiceId: string): seq<Section>
  {
    ss + [NewSection(sectionId, |ss|, questionId, firstChoiceId, secondChoiceId)]
  }

  /** `removeSection`: refused when only one section is left; otherwise every section with
      that id goes. */
  function RemoveSection(ss: seq<Section>, sectionId: string): seq<Section>
  {
    if |ss| == 1 then ss else Filter(KeyIsNot(SectionId, sectionId), ss)
  }

  function WithTitle(title: string): Section -> Section
  {
    (s: Section) => s.(title := title)
  }

  function WithDescription(description: string): Section -> Section
  {
    (s: Section) => s.(description := Some(description))
  }

  /** `updateSectionTitle` */
  function UpdateSectionTitle(ss: seq<Section>, sectionId: string, title: string): seq<Section>
  {
    MapWhere(ss, SectionId, sectionId, WithTitle(title))
  }

  /** `updateSectionDescription` */
  function UpdateSectionDescription(ss: seq<Section>, sectionId: string, description: string): seq<Section>
  {
    MapWhere(ss, SectionId, sectionId, WithDescription(description))
  }

  /** Adding a section appends exactly one new section at the end, numbered after the
      existing ones and holding one default question. */
  lemma AddSectionSpec(ss: seq<Section>, sectionId: string, questionId: string, firstChoiceId: string, secondChoiceId: string)
    ensures var r := AddSection(ss, sectionId, questionId, firstChoiceId, secondChoiceId);
      && |r| == |ss| + 1 && r[..|ss|] == ss && r[|ss|].id == sectionId
      && r[|ss|].title == "Section " + NatToString(|ss| + 1)
      && DecimalValue(r[|ss|].title[8..]) == |ss| + 1
      && r[|ss|].questions == [DefaultQuestion(questionId, firstChoiceId, secondChoiceId)]
  {
    var r := AddSection(ss, sectionId, questionId, firstChoiceId, secondChoiceId);
    assert r[..|ss|] == ss;
    NumberedTitle(|ss| + 1);
  }

  /** The added section is worth one mark. */
  lemma AddSectionMarks(ss: seq<Section>, sectionId: string, questionId: string, firstChoiceId: string, secondChoiceId: string)
    ensures TotalMarks(AddSection(ss, sectionId, questionId, firstChoiceId, secondChoiceId)) == TotalMarks(ss) + 1
  {
    var n := NewSection(sectionId, |ss|, questionId, firstChoiceId, secondChoiceId);
    TotalMarksConcat(ss, [n]);
    assert TotalMarks([n]) == MarksSum(n.questions) + TotalMarks([]);
    assert MarksSum(n.questions) == 1 + MarksSum([]);
  }

  /** With fresh ids, adding a section to a well-formed or an empty tree gives a
      well-formed tree. */
  lemma AddSectionKeepsValid(ss: seq<Section>, sectionId: string, questionId: string, firstChoiceId: string, secondChoiceId: string)
    requires (ss == [] || ValidTree(ss)) && firstChoiceId != secondChoiceId
    requires forall i :: 0 <= i < |ss| ==> ss[i].id != sectionId
    ensures ValidTree(AddSection(ss, sectionId, questionId, firstChoiceId, secondChoiceId))
  {
    AppendKeepsValid(ss, NewSection(sectionId, |ss|, questionId, firstChoiceId, secondChoiceId));
  }

  /** The number after "Section " reads back. */
  lemma NumberedTitle(k: nat)
    ensures var t := "Section " + NatToString(k);
      t[8..] == NatToString(k) && AllDigits(t[8..]) && DecimalValue(t[8..]) == k
  {
    NatToStringValue(k);
    var t := "Section " + NatToString(k);
    assert t[8..] == NatToString(k);
  }

  /** A well-formed section with a fresh id appended to a well-formed tree. */
  lemma AppendKeepsValid(ss: seq<Section>, n: Section)
    requires (ss == [] || ValidTree(ss)) && ValidSection(n)
    requires forall i :: 0 <= i < |ss| ==> ss[i].id != n.id
    ensures ValidTree(ss + [n])
  {
    var r := ss + [n];
    forall i, j | 0 <= i < j < |r| ensures SectionId(r[i]) != SectionId(r[j]) {
      if j < |ss| {
        assert SectionId(ss[i]) != SectionId(ss[j]);
      }
    }
    forall i | 0 <= i < |r| ensures ValidSection(r[i]) {
      if i < |ss| {
        assert r[i] == ss[i];
      }
    }
  }

  /** With a single section removing changes nothing; otherwise it keeps exactly the
      sections with another id, in their order, and with unique ids that is one section
      fewer when the id is present and all of them when it is not. */
  lemma RemoveSectionSpec(ss: seq<Section>, sectionId: string)
    ensures |ss| == 1 ==> RemoveSection(ss, sectionId) == ss
    ensures |ss| != 1 ==>
      var r := RemoveSection(ss, sectionId);
      && IsSubsequence(r, ss)
      && (forall i :: 0 <= i < |r| ==> r[i].id != sectionId)
      && (forall i :: 0 <= i < |ss| && ss[i].id != sectionId ==> ss[i] in r)
      && (UniqueKeys(ss, SectionId) ==>
            |r| == if exists i :: 0 <= i < |ss| && ss[i].id == sectionId then |ss| - 1 else |ss|)
  {
    RemoveByKey(ss, SectionId, sectionId);
  }

  /** Removing a section keeps a well-formed tree well formed: the last section is never
      removed. */
  lemma RemoveSectionKeepsValid(ss: seq<Section>, sectionId: string)
    requires ValidTree(ss)
    ensures ValidTree(RemoveSection(ss, sectionId))
  {
    if |ss| != 1 {
      var r := RemoveSection(ss, sectionId);
      RemoveByKey(ss, SectionId, sectionId);
      forall i | 0 <= i < |r| ensures ValidSection(r[i]) {
        assert r[i] in ss;
      }
    }
  }

  /** Retitling changes the title of the sections with that id and nothing else. */
  lemma UpdateSectionTitleSpec(ss: seq<Section>, sectionId: string, title: string)
    ensures var r := UpdateSectionTitle(ss, sectionId, title);
      && |r| == |ss|
      && (forall i :: 0 <= i < |ss| && ss[i].id != sectionId ==> r[i] == ss[i])
      && (forall i :: 0 <= i < |ss| && ss[i].id == sectionId ==> r[i].title == title && r[i].(title := ss[i].title) == ss[i])
      && Questions(r) == Questions(ss)
      && (ValidTree(ss) ==> ValidTree(r))
  {
    var r := UpdateSectionTitle(ss, sectionId, title);
    SameQuestions(ss, r);
    MapWhereKeepsKeys(ss, SectionId, sectionId, WithTitle(title));
  }

  /** Redescribing changes the description of the sections with that id and nothing else. */
  lemma UpdateSectionDescriptionSpec(ss: seq<Section>, sectionId: string, description: string)
    ensures var r := UpdateSectionDescription(ss, sectionId, description);
      && |r| == |ss|
      && (forall i :: 0 <= i < |ss| && ss[i].id != sectionId ==> r[i] == ss[i])
      && (forall i :: 0 <= i < |ss| && ss[i].id == sectionId ==>
            r[i].description == Some(description) && r[i].(description := ss[i].description) == ss[i])
      && Questions(r) == Questions(ss)
      && (ValidTree(ss) ==> ValidTree(r))
  {
    var r := UpdateSectionDescription(ss, sectionId, description);
    SameQuestions(ss, r);
    MapWhereKeepsKeys(ss, SectionId, sectionId, WithDescription(description));
  }

  lemma {:induction false} SameQuestions(a: seq<Section>, b: seq<Section>)
    requires |a| == |b| && forall i :: 0 <= i < |a| ==> a[i].questions == b[i].questions
    ensures Questions(a) == Questions(b)
    decreases |a|
  {
    if a != [] {
      SameQuestions(a[1..], b[1..]);
    }
  }

  // ---------------------------------------------------------------------------
  // Question operations

  function AppendQuestion(q: Question): Section -> Section
  {
    (s: Section) => s.(questions := s.questions + [q])
  }

  /** `addQuestion`: one default question appended to every section with that id. */
  function AddQuestion(ss: seq<Section>, sectionId: string, questionId: string, firstChoiceId: string, secondChoiceId: string): seq<Section>
  {
    MapWhere(ss, SectionId, sectionId, AppendQuestion(DefaultQuestion(questionId, firstChoiceId, secondChoiceId)))
  }

  /** The updaters the editor passes to `updateQuestion`. */
  datatype QuestionEdit =
    | SetPrompt(prompt: string)
    | SetDifficulty(difficulty: QuestionDifficulty)
    | SetMarks(marks: nat)
    | SetNegativeMarks(negativeMarks: nat)
    | SetChoiceText(choiceId: string, text: string)
    | SetChoiceCorrect(choiceId: string, isCorrect: bool)
    | RemoveChoice(choiceId: string)
    | AddChoice(choiceId: string)
    | SetTags(raw: string)

  function WithText(text: string): Choice -> Choice
  {
    (c: Choice) => c.(text := text)
  }

  function WithCorrect(isCorrect: bool): Choice -> Choice
  {
    (c: Choice) => c.(isCorrect := isCorrect)
  }

  /** The "Remove" button of a choice: refused at two choices; otherwise every choice with
      that id goes. */
  function RemoveChoiceFrom(choices: seq<Choice>, choiceId: string): seq<Choice>
  {
    if |choices| == 2 then choices else Filter(KeyIsNot(ChoiceId, choiceId), choices)
  }

  function ApplyEdit(q: Question, e: QuestionEdit): Question
  {
    match e
    case SetPrompt(p) => q.(prompt := p)
    case SetDifficulty(d) => q.(difficulty := d)
    case SetMarks(m) => q.(marks := m)
    case SetNegativeMarks(m) => q.(negativeMarks := Some(m))
    case SetChoiceText(c, t) => q.(choices := MapWhere(q.choices, ChoiceId, c, WithText(t)))
    case SetChoiceCorrect(c, b) => q.(choices := MapWhere(q.choices, ChoiceId, c, WithCorrect(b)))
    case RemoveChoice(c) => q.(choices := RemoveChoiceFrom(q.choices, c))
    case AddChoice(c) => q.(choices := q.choices + [EmptyChoice(c, false)])
    case SetTags(raw) => q.(tags := Some(ParseTags(raw)))
  }

  function EditQuestion(questionId: string, e: QuestionEdit): Section -> Section
  {
    (s: Section) => s.(questions := MapWhere(s.questions, QuestionId, questionId, (q: Question) => ApplyEdit(q, e)))
  }

  /** `updateQuestion`: the edit is applied to every question with that id inside every
      section with that id. */
  function UpdateQuestion(ss: seq<Section>, sectionId: string, questionId: string, e: QuestionEdit): seq<Section>
  {
    MapWhere(ss, SectionId, sectionId, EditQuestion(questionId, e))
  }

  function DropQuestion(questionId: string): Section -> Section
  {
    (s: Section) => s.(questions := if |s.questions| == 1 then s.questions
                                    else Filter(KeyIsNot(QuestionId, questionId), s.questions))
  }

  /** `removeQuestion`: refused in a one-question section; otherwise every question with
      that id goes. */
  function RemoveQuestion(ss: seq<Section>, sectionId: string, questionId: string): seq<Section>
  {
    MapWhere(ss, SectionId, sectionId, DropQuestion(questionId))
  }

  /** Adding a question appends one default question to the sections with that id and
      touches nothing else of the tree. */
  lemma AddQuestionSpec(ss: seq<Section>, sectionId: string, questionId: string, firstChoiceId: string, secondChoiceId: string)
    ensures var r := AddQuestion(ss, sectionId, questionId, firstChoiceId, secondChoiceId);
      && |r| == |ss|
      && (forall i :: 0 <= i < |ss| && ss[i].id != sectionId ==> r[i] == ss[i])
      && (forall i :: 0 <= i < |ss| && ss[i].id == sectionId ==>
            r[i].questions == ss[i].questions + [DefaultQuestion(questionId, firstChoiceId, secondChoiceId)]
            && r[i].(questions := ss[i].questions) == ss[i])
  {
  }

  /** In a tree with unique section ids, adding a question to a present section adds one
      mark to the total. */
  lemma AddQuestionMarks(ss: seq<Section>, k: nat, questionId: string, firstChoiceId: string, secondChoiceId: string)
    requires UniqueKeys(ss, SectionId) && k < |ss|
    ensures TotalMarks(AddQuestion(ss, ss[k].id, questionId, firstChoiceId, secondChoiceId)) == TotalMarks(ss) + 1
  {
    var d := DefaultQuestion(questionId, firstChoiceId, secondChoiceId);
    MapWhereSingle(ss, SectionId, k, AppendQuestion(d));
    TotalMarksAfterUpdate(ss, k, AppendQuestion(d)(ss[k]));
    MarksSumConcat(ss[k].questions, [d]);
    assert MarksSum([d]) == 1 + MarksSum([]);
  }

  /** A question with fresh ids keeps a well-formed tree well formed. */
  lemma AddQuestionKeepsValid(ss: seq<Section>, sectionId: string, questionId: string, firstChoiceId: string, secondChoiceId: string)
    requires ValidTree(ss) && firstChoiceId != secondChoiceId
    requires forall i, j :: 0 <= i < |ss| && ss[i].id == sectionId && 0 <= j < |ss[i].questions| ==> ss[i].questions[j].id != questionId
    ensures ValidTree(AddQuestion(ss, sectionId, questionId, firstChoiceId, secondChoiceId))
  {
    var d := DefaultQuestion(questionId, firstChoiceId, secondChoiceId);
    var r := AddQuestion(ss, sectionId, questionId, firstChoiceId, secondChoiceId);
    MapWhereKeepsKeys(ss, SectionId, sectionId, AppendQuestion(d));
    forall i | 0 <= i < |ss| && ss[i].id == sectionId ensures ValidSection(r[i]) {
      var qs := r[i].questions;
      assert qs == ss[i].questions + [d];
      forall a, b | 0 <= a < b < |qs| ensures qs[a].id != qs[b].id {
        if b == |qs| - 1 {
          assert qs[a] == ss[i].questions[a];
        } else {
          assert qs[a] == ss[i].questions[a] && qs[b] == ss[i].questions[b];
        }
      }
      forall j | 0 <= j < |qs| ensures ValidQuestion(qs[j]) {
        if j < |ss[i].questions| {
          assert qs[j] == ss[i].questions[j];
        }
      }
    }
  }

  /** Removing a question leaves other sections alone and never empties a section; in a
      section with several questions it keeps exactly the questions with another id, in
      their order. */
  lemma RemoveQuestionSpec(ss: seq<Section>, sectionId: string, questionId: string)
    ensures var r := RemoveQuestion(ss, sectionId, questionId);
      && |r| == |ss|
      && (forall i :: 0 <= i < |ss| && ss[i].id != sectionId ==> r[i] == ss[i])
      && (forall i :: 0 <= i < |ss| && ss[i].id == sectionId && |ss[i].questions| == 1 ==> r[i] == ss[i])
      && (forall i :: 0 <= i < |ss| && ss[i].id == sectionId ==> r[i].(questions := ss[i].questions) == ss[i])
      && (forall i :: 0 <= i < |ss| && ss[i].id == sectionId && |ss[i].questions| != 1 ==>
            && IsSubsequence(r[i].questions, ss[i].questions)
            && (forall j :: 0 <= j < |r[i].questions| ==> r[i].questions[j].id != questionId)
            && (forall j :: 0 <= j < |ss[i].questions| && ss[i].questions[j].id != questionId ==> ss[i].questions[j] in r[i].questions))
  {
    forall i | 0 <= i < |ss| && ss[i].id == sectionId && |ss[i].questions| != 1 {
      RemoveByKey(ss[i].questions, QuestionId, questionId);
    }
  }

  /** Removing a question keeps a well-formed tree well formed. */
  lemma RemoveQuestionKeepsValid(ss: seq<Section>, sectionId: string, questionId: string)
    requires ValidTree(ss)
    ensures ValidTree(RemoveQuestion(ss, sectionId, questionId))
  {
    var r := RemoveQuestion(ss, sectionId, questionId);
    MapWhereKeepsKeys(ss, SectionId, sectionId, DropQuestion(questionId));
    forall i | 0 <= i < |ss| && ss[i].id == sectionId && |ss[i].questions| != 1 ensures ValidSection(r[i]) {
      var qs := ss[i].questions;
      RemoveByKey(qs, QuestionId, questionId);
      forall j | 0 <= j < |r[i].questions| ensures ValidQuestion(r[i].questions[j]) {
        assert r[i].questions[j] in qs;
      }
    }
  }

  /** Removing a choice never goes below two choices; otherwise it keeps exactly the
      choices with another id, in order, and distinct ids stay distinct. */
  lemma RemoveChoiceSpec(choices: seq<Choice>, choiceId: string)
    ensures |choices| == 2 ==> RemoveChoiceFrom(choices, choiceId) == choices
    ensures |choices| != 2 ==>
      var r := RemoveChoiceFrom(choices, choiceId);
      && IsSubsequence(r, choices)
      && (forall k :: 0 <= k < |r| ==> r[k].id != choiceId)
      && (forall k :: 0 <= k < |choices| && choices[k].id != choiceId ==> choices[k] in r)
    ensures |choices| >= 2 && UniqueKeys(choices, ChoiceId) ==>
      var r := RemoveChoiceFrom(choices, choiceId);
      |r| >= 2 && UniqueKeys(r, ChoiceId)
  {
    RemoveByKey(choices, ChoiceId, choiceId);
  }

  /** Every edit keeps the question's id; only `SetMarks` changes the marks; choice text
      and correctness edits keep the choices' ids and number; adding appends one empty
      incorrect choice; and a well-formed question stays well formed when an added choice
      id is fresh. */
  lemma ApplyEditSpec(q: Question, e: QuestionEdit)
    ensures ApplyEdit(q, e).id == q.id
    ensures ApplyEdit(q, e).marks == if e.SetMarks? then e.marks else q.marks
    ensures e.SetChoiceText? || e.SetChoiceCorrect? ==>
      |ApplyEdit(q, e).choices| == |q.choices|
      && forall k :: 0 <= k < |q.choices| ==> ApplyEdit(q, e).choices[k].id == q.choices[k].id
    ensures e.AddChoice? ==> ApplyEdit(q, e).choices == q.choices + [Choice(e.choiceId, "", false, None)]
    ensures ValidQuestion(q) && (e.AddChoice? ==> FreshChoiceId(q, e.choiceId)) ==> ValidQuestion(ApplyEdit(q, e))
  {
    if e.RemoveChoice? {
      RemoveChoiceSpec(q.choices, e.choiceId);
    }
  }

  predicate FreshChoiceId(q: Question, choiceId: string)
  {
    forall k :: 0 <= k < |q.choices| ==> q.choices[k].id != choiceId
  }

  /** An edit reaches only the questions with that id inside the sections with that id. */
  lemma UpdateQuestionSpec(ss: seq<Section>, sectionId: string, questionId: string, e: QuestionEdit)
    ensures var r := UpdateQuestion(ss, sectionId, questionId, e);
      && |r| == |ss|
      && (forall i :: 0 <= i < |ss| && ss[i].id != sectionId ==> r[i] == ss[i])
      && (forall i :: 0 <= i < |ss| && ss[i].id == sectionId ==>
            && |r[i].questions| == |ss[i].questions|
            && r[i].(questions := ss[i].questions) == ss[i]
            && (forall j :: 0 <= j < |ss[i].questions| && ss[i].questions[j].id != questionId ==>
                  r[i].questions[j] == ss[i].questions[j])
            && (forall j :: 0 <= j < |ss[i].questions| && ss[i].questions[j].id == questionId ==>
                  r[i].questions[j] == ApplyEdit(ss[i].questions[j], e)))
  {
  }

  /** Every edit keeps a well-formed tree well formed, provided a choice it adds has a
      fresh id. */
  lemma UpdateQuestionKeepsValid(ss: seq<Section>, sectionId: string, questionId: string, e: QuestionEdit)
    requires ValidTree(ss)
    requires e.AddChoice? ==>
      forall i, j :: 0 <= i < |ss| && ss[i].id == sectionId && 0 <= j < |ss[i].questions| && ss[i].questions[j].id == questionId
        ==> FreshChoiceId(ss[i].questions[j], e.choiceId)
    ensures ValidTree(UpdateQuestion(ss, sectionId, questionId, e))
  {
    var r := UpdateQuestion(ss, sectionId, questionId, e);
    MapWhereKeepsKeys(ss, SectionId, sectionId, EditQuestion(questionId, e));
    forall i | 0 <= i < |ss| && ss[i].id == sectionId ensures ValidSection(r[i]) {
      forall j | 0 <= j < |ss[i].questions| && ss[i].questions[j].id == questionId
        ensures r[i].questions[j].id == ss[i].questions[j].id && ValidQuestion(r[i].questions[j])
      {
        ApplyEditSpec(ss[i].questions[j], e);
      }
    }
  }

  /** Setting the marks of the question at `(s, j)` in a tree with unique ids changes the
      total by exactly the difference. */
  lemma SetMarksTotal(ss: seq<Section>, s: nat, j: nat, m: nat)
    requires ValidTree(ss) && s < |ss| && j < |ss[s].questions|
    ensures TotalMarks(UpdateQuestion(ss, ss[s].id, ss[s].questions[j].id, SetMarks(m)))
         == TotalMarks(ss) - ss[s].questions[j].marks + m
  {
    var e := SetMarks(m);
    var f := EditQuestion(ss[s].questions[j].id, e);
    MapWhereSingle(ss, SectionId, s, f);
    var qs := ss[s].questions;
    MapWhereSingle(qs, QuestionId, j, (q: Question) => ApplyEdit(q, e));
    MarksSumAfterUpdate(qs, j, ApplyEdit(qs[j], e));
    TotalMarksAfterUpdate(ss, s, f(ss[s]));
  }

  // ---------------------------------------------------------------------------
  // Tags

  function TrimAll(pieces: seq<string>): (r: seq<string>)
    ensures |r| == |pieces|
    ensures forall i :: 0 <= i < |r| ==> r[i] == Trim(pieces[i])
  {
    seq(|pieces|, i requires 0 <= i < |pieces| => Trim(pieces[i]))
  }

  predicate NonEmpty(s: string)
  {
    s != ""
  }

  /** The tag field: split on commas, trim every piece, drop empty pieces. */
  function ParseTags(raw: string): (tags: seq<string>)
    ensures forall t :: t in tags ==> t != "" && IsTrimmed(t) && ',' !in t
  {
    var pieces := Split(raw, ',');
    var trimmed := TrimAll(pieces);
    assert forall i :: 0 <= i < |trimmed| ==> IsTrimmed(trimmed[i]) && ',' !in trimmed[i] by {
      forall i | 0 <= i < |trimmed| ensures ',' !in trimmed[i] {
        if ',' in trimmed[i] {
          TrimKeepsChars(pieces[i], ',');
        }
      }
    }
    Filter(NonEmpty, trimmed)
  }

  /** A tag the field can show and read back: non-empty, trimmed, without a comma. */
  predicate IsTag(t: string)
  {
    t != "" && IsTrimmed(t) && ',' !in t
  }

  lemma {:induction false} SplitJoinedTags(w: string, tags: seq<string>)
    requires AllSpaces(w) && |tags| >= 1
    requires forall i :: 0 <= i < |tags| ==> IsTag(tags[i])
    ensures TrimAll(Split(w + Join(tags, ", "), ',')) == tags
    decreases |tags|
  {
    if |tags| == 1 {
      SplitJoinedOne(w, tags[0]);
      assert tags == [tags[0]];
    } else {
      SplitJoinedTags(" ", tags[1..]);
      SplitJoinedStep(w, tags);
    }
  }

  /** One tag after white space splits and trims to itself. */
  lemma SplitJoinedOne(w: string, t: string)
    requires AllSpaces(w) && IsTag(t)
    ensures TrimAll(Split(w + Join([t], ", "), ',')) == [t]
  {
    NoCommaAfterSpaces(w, t);
    TrimAfterSpaces(w, t);
    assert w + Join([t], ", ") == w + t;
    SplitWithoutSep(w + t, ',');
    TrimAllCons(w + t, []);
  }

  /** The first tag and its white space split off at the first comma; the rest starts with
      the space of the glue. */
  lemma SplitJoinedStep(w: string, tags: seq<string>)
    requires AllSpaces(w) && |tags| >= 2 && IsTag(tags[0])
    requires TrimAll(Split(" " + Join(tags[1..], ", "), ',')) == tags[1..]
    ensures TrimAll(Split(w + Join(tags, ", "), ',')) == tags
  {
    var first := w + tags[0];
    var rest := " " + Join(tags[1..], ", ");
    NoCommaAfterSpaces(w, tags[0]);
    TrimAfterSpaces(w, tags[0]);
    calc {
      TrimAll(Split(w + Join(tags, ", "), ','));
      { Regroup(w, tags[0], Join(tags[1..], ", ")); }
      TrimAll(Split(first + [','] + rest, ','));
      { SplitAtFirstSep(first, ',', rest); }
      TrimAll([first] + Split(rest, ','));
      { TrimAllCons(first, Split(rest, ',')); }
      [tags[0]] + tags[1..];
      tags;
    }
  }

  /** White space followed by a tag holds no comma. */
  lemma NoCommaAfterSpaces(w: string, t: string)
    requires AllSpaces(w) && ',' !in t
    ensures ',' !in w + t
  {
    forall k | 0 <= k < |w + t| ensures (w + t)[k] != ',' {
      if k < |w| {
        assert IsSpace(w[k]);
      } else {
        assert (w + t)[k] == t[k - |w|];
      }
    }
  }

  /** Trimming a list with one more piece in front. */
  lemma TrimAllCons(x: string, xs: seq<string>)
    ensures TrimAll([x] + xs) == [Trim(x)] + TrimAll(xs)
  {
  }

  /** The first tag, with the white space before it, ends at the comma of the ", " glue. */
  lemma Regroup(w: string, a: string, j: string)
    ensures w + (a + ", " + j) == (w + a) + [','] + (" " + j)
  {
    assert ", " == [','] + " ";
  }

  /** What the tag field shows, `tags.join(", ")`, parses back to the same tags. */
  lemma ParseJoinedTags(tags: seq<string>)
    requires forall i :: 0 <= i < |tags| ==> IsTag(tags[i])
    ensures ParseTags(Join(tags, ", ")) == tags
  {
    if tags == [] {
      assert Split("", ',') == [""];
      assert TrimAll([""]) == [""];
    } else {
      SplitJoinedTags("", tags);
      assert "" + Join(tags, ", ") == Join(tags, ", ");
      FilterKeepsAll(NonEmpty, tags);
    }
  }

  /** Parsing what a parse produced, shown joined, gives the same tags: editing the field
      without typing anything keeps the tags. */
  lemma ParseTagsStable(raw: string)
    ensures ParseTags(Join(ParseTags(raw), ", ")) == ParseTags(raw)
  {
    var tags := ParseTags(raw);
    forall i | 0 <= i < |tags| ensures IsTag(tags[i]) {
      assert tags[i] in tags;
    }
    ParseJoinedTags(tags);
  }

  // ---------------------------------------------------------------------------
  // Saving

  /** `title.trim().toLowerCase().replace(/\s+/g, "-")` */
  function SlugId(title: string): string
  {
    DashSpaceRuns(Lower(Trim(title)))
  }

  /** The slug is empty exactly for a blank title. */
  lemma SlugIdBlank(title: string)
    ensures SlugId(title) == [] <==> AllSpaces(title)
  {
  }

  /** The slug holds no white space and no upper-case letter. */
  lemma SlugIdChars(title: string)
    ensures var r := SlugId(title);
      forall i :: 0 <= i < |r| ==> !IsSpace(r[i]) && LowerChar(r[i]) == r[i]
  {
    var l := Lower(Trim(title));
    var r := DashSpaceRuns(l);
    DashSpaceRunsChars(l);
    LowerIsLower(Trim(title));
    forall i | 0 <= i < |r| ensures LowerChar(r[i]) == r[i] {
      assert r[i] in r;
    }
  }

  /** Slugging a slug gives it back. */
  lemma SlugIdIdempotent(title: string)
    ensures SlugId(SlugId(title)) == SlugId(title)
  {
    var r := SlugId(title);
    SlugIdChars(title);
    TrimWithoutSpaces(r);
    assert Lower(r) == r;
    DashSpaceRunsWithoutSpaces(r);
  }

  /** A title of one word is slugged by lower-casing it. */
  lemma SlugIdWord(a: string)
    requires forall i :: 0 <= i < |a| ==> !IsSpace(a[i])
    ensures SlugId(a) == Lower(a)
  {
    TrimWithoutSpaces(a);
    DashSpaceRunsWithoutSpaces(Lower(a));
  }

  /** Blank space around the title is dropped, and the white space between two parts of
      it becomes one dash between their slugs. */
  lemma SlugIdWords(v1: string, a: string, w: string, b: string, v2: string)
    requires AllSpaces(v1) && AllSpaces(v2) && AllSpaces(w) && w != []
    requires a != [] && b != [] && IsTrimmed(a) && IsTrimmed(b)
    ensures SlugId(v1 + a + w + b + v2) == SlugId(a) + "-" + SlugId(b)
  {
    var t := a + w + b;
    assert IsTrimmed(t) by {
      assert t[0] == a[0] && t[|t| - 1] == b[|b| - 1];
    }
    assert v1 + a + w + b + v2 == v1 + t + v2;
    SlugIdAround(v1, t, v2);
    SlugIdJoin(a, w, b);
  }

  lemma SlugIdJoin(a: string, w: string, b: string)
    requires AllSpaces(w) && w != []
    requires a != [] && b != [] && IsTrimmed(a) && IsTrimmed(b)
    ensures DashSpaceRuns(Lower(a + w + b)) == SlugId(a) + "-" + SlugId(b)
  {
    SlugIdAround("", a, "");
    SlugIdAround("", b, "");
    LowerConcat(a, w, b);
    DashSpaceRunsConcat(Lower(a), w, Lower(b));
  }

  /** Blank space around a trimmed title does not change its slug. */
  lemma SlugIdAround(v1: string, t: string, v2: string)
    requires AllSpaces(v1) && AllSpaces(v2) && IsTrimmed(t)
    ensures SlugId(v1 + t + v2) == DashSpaceRuns(Lower(t))
    ensures SlugId(t) == DashSpaceRuns(Lower(t))
  {
    TrimAround(v1, t, v2);
    TrimAround("", t, "");
    assert "" + t + "" == t;
  }

  /** Lower-casing works piece by piece, leaves white space alone and keeps the pieces'
      ends free of white space. */
  lemma LowerConcat(a: string, w: string, b: string)
    requires AllSpaces(w) && a != [] && b != [] && IsTrimmed(a) && IsTrimmed(b)
    ensures Lower(a + w + b) == Lower(a) + w + Lower(b)
    ensures !IsSpace(Lower(a)[|a| - 1]) && !IsSpace(Lower(b)[0])
  {
    var t := a + w + b;
    var r := Lower(a) + w + Lower(b);
    forall i | 0 <= i < |t| ensures Lower(t)[i] == r[i] {
      if i < |a| {
        assert t[i] == a[i];
      } else if i < |a| + |w| {
        assert t[i] == w[i - |a|];
      } else {
        assert t[i] == b[i - |a| - |w|];
      }
    }
  }

  function TrimChoice(c: Choice): Choice
  {
    c.(text := Trim(c.text))
  }

  function TrimQuestion(q: Question): Question
  {
    q.(choices := seq(|q.choices|, k requires 0 <= k < |q.choices| => TrimChoice(q.choices[k])))
  }

  function TrimSection(s: Section): Section
  {
    s.(questions := seq(|s.questions|, j requires 0 <= j < |s.questions| => TrimQuestion(s.questions[j])))
  }

  /** The sections of the saved payload: every choice label trimmed. */
  function TrimLabels(ss: seq<Section>): seq<Section>
  {
    seq(|ss|, i requires 0 <= i < |ss| => TrimSection(ss[i]))
  }

  /** `saveTest`'s payload: the slug of the title as id, or the fresh id for a blank
      title; trimmed title, description and choice labels; the running mark total. */
  function BuildPayload(title: string, description: string, category: string, difficulty: TestDifficulty,
                        durationMinutes: nat, ss: seq<Section>, freshId: string): MockTest
  {
    var slug := SlugId(title);
    MockTest(if slug != "" then slug else freshId, Trim(title), Trim(description), durationMinutes,
             TotalMarks(ss), category, difficulty, TrimLabels(ss), None)
  }

  /** The saved test is named by the slug of its title, or by the fresh id when the title
      is blank, and carries the trimmed title and description. */
  lemma BuildPayloadId(title: string, description: string, category: string, difficulty: TestDifficulty,
                       durationMinutes: nat, ss: seq<Section>, freshId: string)
    ensures var p := BuildPayload(title, description, category, difficulty, durationMinutes, ss, freshId);
      && p.id == (if AllSpaces(title) then freshId else SlugId(title))
      && p.title == Trim(title) && p.description == Trim(description)
      && p.category == category && p.difficulty == difficulty && p.durationMinutes == durationMinutes
  {
    SlugIdBlank(title);
  }

  /** Trimming labels keeps the tree's shape, ids and every other field; only each choice
      label changes, to its trimmed form. */
  lemma TrimLabelsSpec(ss: seq<Section>)
    ensures var t := TrimLabels(ss);
      && |t| == |ss|
      && (forall i :: 0 <= i < |ss| ==>
            && t[i].(questions := ss[i].questions) == ss[i]
            && |t[i].questions| == |ss[i].questions|
            && (forall j :: 0 <= j < |ss[i].questions| ==>
                  && t[i].questions[j].(choices := ss[i].questions[j].choices) == ss[i].questions[j]
                  && |t[i].questions[j].choices| == |ss[i].questions[j].choices|
                  && (forall k :: 0 <= k < |ss[i].questions[j].choices| ==>
                        t[i].questions[j].choices[k] == ss[i].questions[j].choices[k].(text := Trim(ss[i].questions[j].choices[k].text)))))
  {
  }

  lemma TrimQuestionIdempotent(q: Question)
    ensures TrimQuestion(TrimQuestion(q)) == TrimQuestion(q)
  {
    var t := TrimQuestion(q);
    forall k | 0 <= k < |t.choices| ensures TrimChoice(t.choices[k]) == t.choices[k] {
      TrimIdempotent(q.choices[k].text);
    }
  }

  lemma TrimSectionIdempotent(s: Section)
    ensures TrimSection(TrimSection(s)) == TrimSection(s)
  {
    var t := TrimSection(s);
    forall j | 0 <= j < |t.questions| ensures TrimQuestion(t.questions[j]) == t.questions[j] {
      TrimQuestionIdempotent(s.questions[j]);
    }
  }

  /** Trimming the labels of a saved tree again changes nothing. */
  lemma TrimLabelsIdempotent(ss: seq<Section>)
    ensures TrimLabels(TrimLabels(ss)) == TrimLabels(ss)
  {
    var t := TrimLabels(ss);
    forall i | 0 <= i < |ss| ensures TrimSection(t[i]) == t[i] {
      TrimSectionIdempotent(ss[i]);
    }
  }

  lemma TrimQuestionKeepsValid(q: Question)
    requires ValidQuestion(q)
    ensures ValidQuestion(TrimQuestion(q))
  {
    var t := TrimQuestion(q);
    assert forall k :: 0 <= k < |q.choices| ==> t.choices[k].id == q.choices[k].id;
  }

  lemma TrimSectionKeepsValid(s: Section)
    requires ValidSection(s)
    ensures ValidSection(TrimSection(s))
  {
    var t := TrimSection(s);
    assert forall j :: 0 <= j < |s.questions| ==> t.questions[j].id == s.questions[j].id;
    forall j | 0 <= j < |s.questions| ensures ValidQuestion(t.questions[j]) {
      TrimQuestionKeepsValid(s.questions[j]);
    }
  }

  /** Trimming labels keeps a well-formed tree well formed. */
  lemma TrimLabelsKeepsValid(ss: seq<Section>)
    requires ValidTree(ss)
    ensures ValidTree(TrimLabels(ss))
  {
    var t := TrimLabels(ss);
    assert forall i :: 0 <= i < |ss| ==> t[i].id == ss[i].id;
    forall i | 0 <= i < |ss| ensures ValidSection(t[i]) {
      TrimSectionKeepsValid(ss[i]);
    }
  }

  lemma {:induction false} SameMarks(a: seq<Question>, b: seq<Question>)
    requires |a| == |b| && forall j :: 0 <= j < |a| ==> a[j].marks == b[j].marks
    ensures MarksSum(a) == MarksSum(b)
    decreases |a|
  {
    if a != [] {
      SameMarks(a[1..], b[1..]);
    }
  }

  /** Trimming labels keeps the mark total. */
  lemma {:induction false} TrimLabelsMarks(ss: seq<Section>)
    ensures TotalMarks(TrimLabels(ss)) == TotalMarks(ss)
    decreases |ss|
  {
    if ss != [] {
      TrimLabelsMarks(ss[1..]);
      assert TrimLabels(ss)[1..] == TrimLabels(ss[1..]);
      SameMarks(ss[0].questions, TrimLabels(ss)[0].questions);
    }
  }

  /** The saved total equals the marks of the saved questions, and a well-formed tree saves
      to a well-formed, runnable test. */
  lemma BuildPayloadSections(title: string, description: string, category: string, difficulty: TestDifficulty,
                             durationMinutes: nat, ss: seq<Section>, freshId: string)
    ensures var p := BuildPayload(title, description, category, difficulty, durationMinutes, ss, freshId);
      && p.totalMarks == MarksSum(Questions(p.sections))
      && (ValidTree(ss) ==> ValidTree(p.sections) && RunnableSections(p.sections))
  {
    var t := TrimLabels(ss);
    TrimLabelsMarks(ss);
    TotalMarksFlat(t);
    if ValidTree(ss) {
      TrimLabelsKeepsValid(ss);
    }
  }
}
