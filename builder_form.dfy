/** The state of the test builder component (components/TestBuilder.tsx): the general
    fields and the section tree, which every handler replaces with the result of a
    `TestBuilder` operation. The inputs of the general fields assign those fields directly. */
module BuilderForm {
  import opened Wrappers
  import opened Types
  import TestBuilder
  import Text

  /** Everything the builder holds, for stating what a handler leaves alone. */
  datatype FormState = FormState(
    title: string,
    description: string,
    category: string,
    difficulty: TestDifficulty,
    durationMinutes: nat,
    sections: seq<Section>)

  /** The form as first shown and as `resetForm` leaves it. */
  function InitialForm(sectionId: string, questionId: string, firstChoiceId: string, secondChoiceId: string): (f: FormState)
    ensures f.title == "" && f.description == "" && f.category == "Practice"
    ensures f.difficulty == Beginner && f.durationMinutes == 60
    ensures |f.sections| == 1 && f.sections[0].title == "Section 1"
    ensures firstChoiceId != secondChoiceId ==> TestBuilder.ValidTree(f.sections) && TestBuilder.TotalMarks(f.sections) == 1
  {
    TestBuilder.AddSectionSpec([], sectionId, questionId, firstChoiceId, secondChoiceId);
    TestBuilder.AddSectionMarks([], sectionId, questionId, firstChoiceId, secondChoiceId);
    assert firstChoiceId != secondChoiceId ==>
      TestBuilder.ValidTree(TestBuilder.AddSection([], sectionId, questionId, firstChoiceId, secondChoiceId)) by {
      if firstChoiceId != secondChoiceId {
        TestBuilder.AddSectionKeepsValid([], sectionId, questionId, firstChoiceId, secondChoiceId);
      }
    }
    assert Text.NatToString(1) == "1";
    FormState("", "", "Practice", Beginner, 60,
              TestBuilder.AddSection([], sectionId, questionId, firstChoiceId, secondChoiceId))
  }

  class Builder {
    var title: string
    var description: string
    var category: string
    var difficulty: TestDifficulty
    var durationMinutes: nat
    var sections: seq<Section>

    /** The tree keeps its minimum sizes and unique ids. */
    ghost predicate Valid()
      reads this
    {
      TestBuilder.ValidTree(sections)
    }

    function Form(): FormState
      reads this
    {
      FormState(title, description, category, difficulty, durationMinutes, sections)
    }

    constructor (sectionId: string, questionId: string, firstChoiceId: string, secondChoiceId: string)
      requires firstChoiceId != secondChoiceId
      ensures Valid()
      ensures Form() == InitialForm(sectionId, questionId, firstChoiceId, secondChoiceId)
    {
      var f := InitialForm(sectionId, questionId, firstChoiceId, secondChoiceId);
      title := f.title;
      description := f.description;
      category := f.category;
      difficulty := f.difficulty;
      durationMinutes := f.durationMinutes;
      sections := f.sections;
    }

    /** `addSection`, with fresh ids for the section, its question and the two choices. */
    method AddSection(sectionId: string, questionId: string, firstChoiceId: string, secondChoiceId: string)
      requires Valid() && firstChoiceId != secondChoiceId
      requires forall i :: 0 <= i < |sections| ==> sections[i].id != sectionId
      modifies this
      ensures Valid()
      ensures Form() == old(Form()).(sections := TestBuilder.AddSection(old(sections), sectionId, questionId, firstChoiceId, secondChoiceId))
      ensures TestBuilder.TotalMarks(sections) == old(TestBuilder.TotalMarks(sections)) + 1
    {
      TestBuilder.AddSectionMarks(sections, sectionId, questionId, firstChoiceId, secondChoiceId);
      TestBuilder.AddSectionKeepsValid(sections, sectionId, questionId, firstChoiceId, secondChoiceId);
      sections := TestBuilder.AddSection(sections, sectionId, questionId, firstChoiceId, secondChoiceId);
    }

    /** `removeSection`: refused while only one section exists. */
    method RemoveSection(sectionId: string)
      requires Valid()
      modifies this
      ensures Valid()
      ensures Form() == old(Form()).(sections := TestBuilder.RemoveSection(old(sections), sectionId))
      ensures |old(sections)| == 1 ==> sections == old(sections)
    {
      TestBuilder.RemoveSectionKeepsValid(sections, sectionId);
      if |sections| == 1 {
        return;
      }
      sections := TestBuilder.RemoveSection(sections, sectionId);
    }

    method UpdateSectionTitle(sectionId: string, nextTitle: string)
      requires Valid()
      modifies this
      ensures Valid()
      ensures Form() == old(Form()).(sections := TestBuilder.UpdateSectionTitle(old(sections), sectionId, nextTitle))
    {
      TestBuilder.UpdateSectionTitleSpec(sections, sectionId, nextTitle);
      sections := TestBuilder.UpdateSectionTitle(sections, sectionId, nextTitle);
    }

    method UpdateSectionDescription(sectionId: string, nextDescription: string)
      requires Valid()
      modifies this
      ensures Valid()
      ensures Form() == old(Form()).(sections := TestBuilder.UpdateSectionDescription(old(sections), sectionId, nextDescription))
    {
      TestBuilder.UpdateSectionDescriptionSpec(sections, sectionId, nextDescription);
      sections := TestBuilder.UpdateSectionDescription(sections, sectionId, nextDescription);
    }

    /** `addQuestion`, with fresh ids for the question and its two choices. */
    method AddQuestion(sectionId: string, questionId: string, firstChoiceId: string, secondChoiceId: string)
      requires Valid() && firstChoiceId != secondChoiceId
      requires forall i, j :: 0 <= i < |sections| && sections[i].id == sectionId && 0 <= j < |sections[i].questions|
                 ==> sections[i].questions[j].id != questionId
      modifies this
      ensures Valid()
      ensures Form() == old(Form()).(sections := TestBuilder.AddQuestion(old(sections), sectionId, questionId, firstChoiceId, secondChoiceId))
    {
      TestBuilder.AddQuestionKeepsValid(sections, sectionId, questionId, firstChoiceId, secondChoiceId);
      sections := TestBuilder.AddQuestion(sections, sectionId, questionId, firstChoiceId, secondChoiceId);
    }

    /** `updateQuestion` with one of the editor's updaters; a choice it adds has a fresh id. */
    method UpdateQuestion(sectionId: string, questionId: string, e: TestBuilder.QuestionEdit)
      requires Valid()
      requires e.AddChoice? ==>
        forall i, j :: 0 <= i < |sections| && sections[i].id == sectionId && 0 <= j < |sections[i].questions|
                       && sections[i].questions[j].id == questionId
          ==> TestBuilder.FreshChoiceId(sections[i].questions[j], e.choiceId)
      modifies this
      ensures Valid()
      ensures Form() == old(Form()).(sections := TestBuilder.UpdateQuestion(old(sections), sectionId, questionId, e))
    {
      TestBuilder.UpdateQuestionKeepsValid(sections, sectionId, questionId, e);
      sections := TestBuilder.UpdateQuestion(sections, sectionId, questionId, e);
    }

    /** `removeQuestion`: refused in a section with one question. */
    method RemoveQuestion(sectionId: string, questionId: string)
      requires Valid()
      modifies this
      ensures Valid()
      ensures Form() == old(Form()).(sections := TestBuilder.RemoveQuestion(old(sections), sectionId, questionId))
    {
      TestBuilder.RemoveQuestionKeepsValid(sections, sectionId, questionId);
      sections := TestBuilder.RemoveQuestion(sections, sectionId, questionId);
    }

    /** `saveTest`: builds the payload from the current fields, hands it on, and resets the
        form with fresh ids. The payload of a well-formed tree can be run. */
    method SaveTest(freshId: string, sectionId: string, questionId: string, firstChoiceId: string, secondChoiceId: string)
      returns (payload: MockTest)
      requires Valid() && firstChoiceId != secondChoiceId
      modifies this
      ensures Valid()
      ensures payload == TestBuilder.BuildPayload(old(title), old(description), old(category), old(difficulty),
                                                  old(durationMinutes), old(sections), freshId)
      ensures RunnableSections(payload.sections) && payload.totalMarks == old(TestBuilder.TotalMarks(sections))
      ensures Form() == InitialForm(sectionId, questionId, firstChoiceId, secondChoiceId)
    {
      payload := TestBuilder.BuildPayload(title, description, category, difficulty, durationMinutes, sections, freshId);
      TestBuilder.BuildPayloadSections(title, description, category, difficulty, durationMinutes, sections, freshId);
      Load(InitialForm(sectionId, questionId, firstChoiceId, secondChoiceId));
    }

    /** Puts every field of `f` into the form at once, as `resetForm` does. */
    method Load(f: FormState)
      modifies this
      ensures Form() == f
    {
      title, description, category := f.title, f.description, f.category;
      difficulty, durationMinutes, sections := f.difficulty, f.durationMinutes, f.sections;
    }
  }
}
