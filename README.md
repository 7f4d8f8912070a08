# MockTest Pro — a Dafny model of the exam engine and its editors

MockTest Pro is a browser application for timed multiple-choice mock exams. A test is a tree
of sections, questions and choices. This project models the parts of the application that
make decisions, and proves what they promise:

- **The exam session** (`TestRunner`). A countdown runs for `durationMinutes * 60`
  seconds and expires for good at zero. The time spent is credited to the question under
  the cursor. The cursor walks the sections and questions forwards and backwards.
  Answers and review flags are rewritten one question at a time. Submission scores the
  responses through the injected `calculateScore`, stores the attempt in front of the
  saved history, and happens at most once. It also happens on its own when the time runs
  out. The session is the class `TestRunner.Session`. Wall-clock time enters only as the
  `nowMs` argument of `Tick` and `ResetBaseline`.
- **The test builder** (`TestBuilder`, `BuilderForm`). Sections, questions and choices are
  added, edited and removed by id. The builder never drops below one section per test,
  one question per section and two choices per question. The running mark total is
  maintained. Saving builds the payload: the id is the slug of the title, and the title,
  description and choice labels are trimmed. The comma-separated tag field is parsed
  here too. The pure tree edits are functions. The component's state is the class
  `BuilderForm.Builder`, whose methods replace its fields with their results.
- **The catalogue and the history** (`UseTests`, `UseAttempts`, `Storage`). The built-in
  tests come first, then the custom tests. Custom tests are upserted and removed by id.
  Attempts are prepended, newest first. Every list is persisted to the device store
  after each change.
- **Browsing** (`TestFilters`, `HomeClient`, `TestsPage`). The filter controls and the
  category options are built by a loop. The home page filters by title, description and
  tags, and shows the first six matches as featured cards. The catalogue page filters by
  title and description only.
- **Test pages** (`TestLookup`, `TestRunnerClient`, `TestDetailClient`). A page resolves
  its test by id and falls back to the server's copy. It shows the test's newest
  attempt, or "Test not found".

Generic sequence and text helpers live in `Seqs` and `Text`:

- filtering, first-match search and update-by-id;
- ASCII trimming and lower-casing, splitting and joining;
- decimal rendering and two-digit padding.

The entities of the application are datatypes in `Types`.

## Model

| member | source | states |
|---|---|---|
| TestRunner.TickTimer | mocktest-system/src/components/TestRunner.tsx:63-97 | an expired countdown is unchanged; one at 1 or below becomes 0 and expired; otherwise it drops by exactly one; it never grows, and the expired flag is set exactly when it was set or the count was at most 1 |
| TestRunner.TicksFromStart | mocktest-system/src/components/TestRunner.tsx:27-30 | from a fresh countdown of `s` seconds, after `n` ticks the count is `s - n` while positive and then stays at 0 with the flag set: it never goes negative |
| TestRunner.ExpiredIsSticky | mocktest-system/src/components/TestRunner.tsx:64-66 | any number of ticks leaves an expired countdown exactly as it is |
| TestRunner.ElapsedSeconds | mocktest-system/src/components/TestRunner.tsx:73 | the rounded number of seconds is within half a second of the elapsed milliseconds |
| TestRunner.InitialResponses | mocktest-system/src/components/TestRunner.tsx:33-41 | one response per question in section-then-question order, each with no choice, no review flag and zero time |
| TestRunner.UpdateResponse | mocktest-system/src/components/TestRunner.tsx:110-119 | same length and question ids; the responses of that question are updated and every other response is identical |
| TestRunner.UpdateSingle | mocktest-system/src/components/TestRunner.tsx:110-119 | when one response carries the question id, updating it is a single-position update of the list |
| TestRunner.ToggleTwice | mocktest-system/src/components/TestRunner.tsx:157-162 | toggling the review flag twice gives the original responses back |
| TestRunner.SelectTwice | mocktest-system/src/components/TestRunner.tsx:150-155 | selecting the same choice twice is the same as selecting it once |
| TestRunner.AttemptedCount | mocktest-system/src/components/TestRunner.tsx:174 | the number of answered responses is at most the number of responses |
| TestRunner.MarkedCount | mocktest-system/src/components/TestRunner.tsx:175 | the number of flagged responses is at most the number of responses |
| TestRunner.InitialCounts | mocktest-system/src/components/TestRunner.tsx:174-175 | a fresh session has nothing attempted and nothing marked |
| TestRunner.SelectChoiceCounts | mocktest-system/src/components/TestRunner.tsx:150-155 | selecting a non-empty choice counts the question as attempted (one more if it was not) and leaves the marked count alone |
| TestRunner.ToggleCounts | mocktest-system/src/components/TestRunner.tsx:157-162 | toggling moves the marked count by one in the right direction and leaves the attempted count alone |
| TestRunner.TotalTimeAfterUpdate | mocktest-system/src/components/TestRunner.tsx:75-84 | replacing one response changes the total time by the difference of the two times |
| TestRunner.CreditAddsToTotal | mocktest-system/src/components/TestRunner.tsx:75-84 | crediting `d` seconds to one question adds exactly `d` to the total time spent |
| TestRunner.QuestionsSplitAt | mocktest-system/src/components/TestRunner.tsx:45-48 | the flattened questions split around any one section |
| TestRunner.FlatIndexLocates | mocktest-system/src/components/TestRunner.tsx:50-53 | an in-bounds cursor names the question at its flat index in the flattened list |
| TestRunner.NextCursor | mocktest-system/src/components/TestRunner.tsx:126-136 | stays in bounds over non-empty sections, and leaves the cursor where it is exactly at the last question |
| TestRunner.PrevCursor | mocktest-system/src/components/TestRunner.tsx:138-148 | stays in bounds over non-empty sections, and leaves the cursor where it is exactly at (0, 0) |
| TestRunner.NextStepsForward | mocktest-system/src/components/TestRunner.tsx:126-136 | "next" moves exactly one place forward in the flattened list, and stays at the last question |
| TestRunner.PrevStepsBack | mocktest-system/src/components/TestRunner.tsx:138-148 | "previous" moves exactly one place back, and stays at the first question |
| TestRunner.PrevUndoesNext | mocktest-system/src/components/TestRunner.tsx:126-148 | "previous" after a moving "next" returns to the same cursor |
| TestRunner.NextUndoesPrev | mocktest-system/src/components/TestRunner.tsx:126-148 | "next" after a moving "previous" returns to the same cursor |
| TestRunner.FormatTime | mocktest-system/src/components/TestRunner.tsx:19-23 | digits, a colon, then exactly two digits; at least five characters |
| TestRunner.Padded | mocktest-system/src/components/TestRunner.tsx:22 | at least two digits that read back to the number, exactly two below one hundred, and no leading zero from ten on |
| TestRunner.FormatTimeReadsBack | mocktest-system/src/components/TestRunner.tsx:19-23 | the seconds field is below 60, minutes × 60 + seconds read back to the input, and the text is exactly `MM:SS` below 100 minutes |
| TestRunner.FeedbackWithCorrectChoice | mocktest-system/src/components/TestRunner.tsx:211-217 | with a correct choice, the verdict is "correct" iff the question's response selected that choice's id |
| TestRunner.FeedbackWithoutCorrectChoice | mocktest-system/src/components/TestRunner.tsx:211-217 | with no correct choice, the verdict is "correct" iff nothing was selected |
| TestRunner.Session.CurrentQuestion | mocktest-system/src/components/TestRunner.tsx:50-53 | the question under the cursor is the one at the cursor's flat index |
| TestRunner.Session.constructor | mocktest-system/src/components/TestRunner.tsx:26-43 | full countdown, cursor (0, 0), fresh responses, no baseline, nothing submitted |
| TestRunner.Session.ResetBaseline | mocktest-system/src/components/TestRunner.tsx:55-60 | before submission the baseline becomes `nowMs` and nothing else changes; after it nothing changes |
| TestRunner.Session.Tick | mocktest-system/src/components/TestRunner.tsx:62-98 | an expired session is unchanged; otherwise the countdown ticks, the baseline becomes `nowMs`, and a positive rounded elapsed time since a truthy baseline is credited to the current question alone |
| TestRunner.Session.GoToQuestion | mocktest-system/src/components/TestRunner.tsx:121-124 | the cursor becomes the given in-bounds position; nothing else changes |
| TestRunner.Session.GoToNextQuestion | mocktest-system/src/components/TestRunner.tsx:126-136 | the cursor becomes its successor; nothing else changes |
| TestRunner.Session.GoToPreviousQuestion | mocktest-system/src/components/TestRunner.tsx:138-148 | the cursor becomes its predecessor; nothing else changes |
| TestRunner.Session.SelectChoice | mocktest-system/src/components/TestRunner.tsx:150-155 | only that question's responses get the choice; nothing else changes |
| TestRunner.Session.ToggleMarkForReview | mocktest-system/src/components/TestRunner.tsx:157-162 | only that question's review flags flip; nothing else changes |
| TestRunner.Session.SubmitTest | mocktest-system/src/components/TestRunner.tsx:164-172 | the attempt is the score of the current responses; it is stored in front of the saved history and handed on once; the session is otherwise unchanged |
| TestRunner.Session.AutoSubmit | mocktest-system/src/components/TestRunner.tsx:103-108 | submits iff the countdown expired and nothing was submitted; otherwise nothing changes; never more than one attempt |
| Types.Questions | mocktest-system/src/components/TestRunner.tsx:45-48 | no sections give no questions |
| Types.QuestionsConcat | mocktest-system/src/components/TestRunner.tsx:45-48 | flattening distributes over concatenation of section lists |
| TestBuilder.ValidTreeIsRunnable | mocktest-system/src/components/TestBuilder.tsx:36-43 | a tree that keeps the builder's minimum sizes has a question in every section, so a session can run it |
| TestBuilder.DefaultQuestion | mocktest-system/src/components/TestBuilder.tsx:17-28 | empty prompt, 1 mark, 0 negative marks, no tags, two empty choices of which only the first is correct; well formed iff the choice ids differ |
| TestBuilder.MarksSumConcat | mocktest-system/src/components/TestBuilder.tsx:45-48 | the marks of two question lists add up |
| TestBuilder.TotalMarksFlat | mocktest-system/src/components/TestBuilder.tsx:45-48 | the nested total equals the sum of marks over the flattened questions |
| TestBuilder.TotalMarksConcat | mocktest-system/src/components/TestBuilder.tsx:45-48 | the totals of two section lists add up |
| TestBuilder.TotalMarksAfterUpdate | mocktest-system/src/components/TestBuilder.tsx:45-48 | replacing one section changes the total by the difference of its marks |
| TestBuilder.MarksSumAfterUpdate | mocktest-system/src/components/TestBuilder.tsx:45-48 | replacing one question changes the sum by the difference of its marks |
| TestBuilder.AddSectionSpec | mocktest-system/src/components/TestBuilder.tsx:117-127 | appends one section with the new id, titled "Section n+1" (the number reads back) and holding one default question; the earlier sections are kept |
| TestBuilder.AddSectionMarks | mocktest-system/src/components/TestBuilder.tsx:117-127 | the added section adds exactly one mark to the total |
| TestBuilder.AddSectionKeepsValid | mocktest-system/src/components/TestBuilder.tsx:117-127 | with fresh ids, adding a section to a well-formed or empty tree gives a well-formed tree |
| TestBuilder.RemoveSectionSpec | mocktest-system/src/components/TestBuilder.tsx:129-134 | a single section is never removed; otherwise exactly the sections with another id are kept, in order; with unique ids that is one fewer iff present |
| TestBuilder.RemoveSectionKeepsValid | mocktest-system/src/components/TestBuilder.tsx:129-134 | removing a section keeps the tree well formed |
| TestBuilder.UpdateSectionTitleSpec | mocktest-system/src/components/TestBuilder.tsx:91-102 | only the title of the matching sections changes; the questions and the well-formedness are kept |
| TestBuilder.UpdateSectionDescriptionSpec | mocktest-system/src/components/TestBuilder.tsx:104-115 | only the description of the matching sections changes; the questions and the well-formedness are kept |
| TestBuilder.AddQuestionSpec | mocktest-system/src/components/TestBuilder.tsx:136-147 | the matching sections get one default question appended; everything else is identical |
| TestBuilder.AddQuestionMarks | mocktest-system/src/components/TestBuilder.tsx:136-147 | adding a question to a present section adds one mark to the total |
| TestBuilder.AddQuestionKeepsValid | mocktest-system/src/components/TestBuilder.tsx:136-147 | adding a question with fresh ids keeps the tree well formed |
| TestBuilder.RemoveQuestionSpec | mocktest-system/src/components/TestBuilder.tsx:168-182 | other sections are untouched; a one-question section is unchanged; otherwise exactly the questions with another id are kept, in order |
| TestBuilder.RemoveQuestionKeepsValid | mocktest-system/src/components/TestBuilder.tsx:168-182 | removing a question keeps the tree well formed |
| TestBuilder.RemoveChoiceSpec | mocktest-system/src/components/TestBuilder.tsx:409-416 | at two choices nothing is removed; otherwise exactly the choices with another id are kept, in order; never fewer than two, ids stay distinct |
| TestBuilder.ApplyEditSpec | mocktest-system/src/components/TestBuilder.tsx:304-453 | every edit keeps the question id; only the marks edit changes marks; label and correctness edits keep the choice ids; "Add Choice" appends one empty incorrect choice; well-formedness is kept |
| TestBuilder.UpdateQuestionSpec | mocktest-system/src/components/TestBuilder.tsx:149-166 | only the matching questions of the matching sections are edited; everything else is identical |
| TestBuilder.UpdateQuestionKeepsValid | mocktest-system/src/components/TestBuilder.tsx:149-166 | every edit keeps the tree well formed when an added choice id is fresh |
| TestBuilder.SetMarksTotal | mocktest-system/src/components/TestBuilder.tsx:339-344 | setting one question's marks changes the total by exactly the difference |
| TestBuilder.TrimAll | mocktest-system/src/components/TestBuilder.tsx:451 | each piece is trimmed, none is lost |
| TestBuilder.ParseTags | mocktest-system/src/components/TestBuilder.tsx:449-452 | every tag is non-empty, trimmed and comma-free |
| TestBuilder.ParseJoinedTags | mocktest-system/src/components/TestBuilder.tsx:444-453 | tags shown joined with ", " parse back to the same tags |
| TestBuilder.ParseTagsStable | mocktest-system/src/components/TestBuilder.tsx:444-453 | re-parsing the displayed tags changes nothing |
| TestBuilder.SplitJoinedTags | mocktest-system/src/components/TestBuilder.tsx:449-451 | splitting joined tags on "," and trimming gives the tags back |
| TestBuilder.SlugIdBlank | mocktest-system/src/components/TestBuilder.tsx:68 | the slug is empty iff the title is blank |
| TestBuilder.SlugIdChars | mocktest-system/src/components/TestBuilder.tsx:68 | the slug has no white space and no upper-case letter |
| TestBuilder.SlugIdIdempotent | mocktest-system/src/components/TestBuilder.tsx:68 | slugging a slug gives it back |
| TestBuilder.SlugIdWord | mocktest-system/src/components/TestBuilder.tsx:68 | a title without white space is slugged by lower-casing it |
| TestBuilder.SlugIdAround | mocktest-system/src/components/TestBuilder.tsx:68 | blank space around a trimmed title does not change its slug |
| TestBuilder.SlugIdWords | mocktest-system/src/components/TestBuilder.tsx:68 | around the title, white space is dropped; between two parts of it, each white-space run becomes one dash between their slugs |
| TestBuilder.BuildPayloadId | mocktest-system/src/components/TestBuilder.tsx:66-85 | the id is the slug, or the fresh id for a blank title; the title and description are trimmed; the other fields are copied |
| TestBuilder.TrimLabelsSpec | mocktest-system/src/components/TestBuilder.tsx:75-84 | the section, question and choice counts and every field but the choice label are kept; each label is trimmed |
| TestBuilder.TrimQuestionIdempotent | mocktest-system/src/components/TestBuilder.tsx:77-83 | trimming a question's labels twice is trimming them once |
| TestBuilder.TrimSectionIdempotent | mocktest-system/src/components/TestBuilder.tsx:75-84 | trimming a section's labels twice is trimming them once |
| TestBuilder.TrimLabelsIdempotent | mocktest-system/src/components/TestBuilder.tsx:75-84 | saving a saved tree again changes no label |
| TestBuilder.TrimQuestionKeepsValid | mocktest-system/src/components/TestBuilder.tsx:77-83 | trimming labels keeps a question well formed |
| TestBuilder.TrimSectionKeepsValid | mocktest-system/src/components/TestBuilder.tsx:75-84 | trimming labels keeps a section well formed |
| TestBuilder.TrimLabelsKeepsValid | mocktest-system/src/components/TestBuilder.tsx:75-84 | trimming labels keeps the tree well formed |
| TestBuilder.SameMarks | mocktest-system/src/components/TestBuilder.tsx:45-48 | question lists with the same marks position by position have the same sum |
| TestBuilder.TrimLabelsMarks | mocktest-system/src/components/TestBuilder.tsx:72-84 | trimming labels keeps the mark total |
| TestBuilder.BuildPayloadSections | mocktest-system/src/components/TestBuilder.tsx:66-85 | the saved total equals the marks of the saved questions; a well-formed tree saves to a well-formed, runnable test |
| BuilderForm.InitialForm | mocktest-system/src/components/TestBuilder.tsx:31-43 | empty title and description, "Practice", beginner, 60 minutes, one "Section 1"; well formed with total 1 when the choice ids differ |
| BuilderForm.Builder.constructor | mocktest-system/src/components/TestBuilder.tsx:31-43 | the builder starts in the initial form, well formed |
| BuilderForm.Builder.AddSection | mocktest-system/src/components/TestBuilder.tsx:117-127 | only the sections change, to their tree edit; the total gains one mark; well-formedness kept |
| BuilderForm.Builder.RemoveSection | mocktest-system/src/components/TestBuilder.tsx:129-134 | only the sections change, to their tree edit; a single section stays; well-formedness kept |
| BuilderForm.Builder.UpdateSectionTitle | mocktest-system/src/components/TestBuilder.tsx:91-102 | only the sections change, to their tree edit; well-formedness kept |
| BuilderForm.Builder.UpdateSectionDescription | mocktest-system/src/components/TestBuilder.tsx:104-115 | only the sections change, to their tree edit; well-formedness kept |
| BuilderForm.Builder.AddQuestion | mocktest-system/src/components/TestBuilder.tsx:136-147 | only the sections change, to their tree edit; well-formedness kept |
| BuilderForm.Builder.UpdateQuestion | mocktest-system/src/components/TestBuilder.tsx:149-166 | only the sections change, to their tree edit; well-formedness kept |
| BuilderForm.Builder.RemoveQuestion | mocktest-system/src/components/TestBuilder.tsx:168-182 | only the sections change, to their tree edit; well-formedness kept |
| BuilderForm.Builder.SaveTest | mocktest-system/src/components/TestBuilder.tsx:66-89 | the payload is built from the fields before the call and is runnable with the builder's total; the form is then reset |
| UseTests.UpsertSpec | mocktest-system/src/hooks/useTests.ts:18-19 | an existing id is replaced in place (same length, others untouched); a new id gives `[test] + prev` |
| UseTests.UpsertFinds | mocktest-system/src/hooks/useTests.ts:16-23 | after an upsert, looking the id up finds the upserted test |
| UseTests.UpsertKeepsOtherLookups | mocktest-system/src/hooks/useTests.ts:18-19 | an upsert leaves the lookup of every other id unchanged |
| UseTests.UpsertIdempotent | mocktest-system/src/hooks/useTests.ts:18-19 | upserting the same test twice is upserting it once |
| UseTests.UpsertKeepsUniqueIds | mocktest-system/src/hooks/useTests.ts:18-19 | upserting keeps ids unique |
| UseTests.RemoveByIdSpec | mocktest-system/src/hooks/useTests.ts:25-31 | the other entries are kept in order, no entry with the id remains, and the id is no longer found |
| UseTests.RemoveKeepsOtherLookups | mocktest-system/src/hooks/useTests.ts:27 | removing leaves the lookup of every other id unchanged |
| UseTests.RemoveUndoesAdd | mocktest-system/src/hooks/useTests.ts:16-31 | removing a test just added under a new id gives the list back |
| UseTests.FindAfterPrefix | mocktest-system/src/hooks/useTests.ts:11-14 | a lookup past built-in tests without the id finds what the custom list holds |
| UseTests.TestsHook.Tests | mocktest-system/src/hooks/useTests.ts:11-14 | the built-in tests, then the custom tests, in order |
| UseTests.TestsHook.constructor | mocktest-system/src/hooks/useTests.ts:9 | the custom list is read from storage |
| UseTests.TestsHook.AddTest | mocktest-system/src/hooks/useTests.ts:16-23 | the custom list becomes the upsert and is persisted; the test is then found by id unless a built-in test shadows it |
| UseTests.TestsHook.RemoveTest | mocktest-system/src/hooks/useTests.ts:25-31 | the custom list loses the id and is persisted |
| UseAttempts.AttemptsHook.constructor | mocktest-system/src/hooks/useAttempts.ts:8 | the history is read from storage |
| UseAttempts.AttemptsHook.AddAttempt | mocktest-system/src/hooks/useAttempts.ts:10-16 | the attempt is the head, the tail is the old history, the length grows by one, and the new list is persisted |
| TestFilters.ControlsChangeOneField | mocktest-system/src/components/TestFilters.tsx:33-68 | each control sets its own field and leaves the other two; setting the old value back restores the state |
| TestFilters.TextMatchesSpec | mocktest-system/src/components/HomeClient.tsx:114-116 | an empty search matches everything; the match ignores the search's case; a prefix always matches |
| TestFilters.DistinctSpec | mocktest-system/src/components/TestFilters.tsx:20-22 | the distinct list has no duplicates and exactly the input's strings |
| TestFilters.DistinctInOrder | mocktest-system/src/components/TestFilters.tsx:20-22 | the distinct list keeps the order of first occurrence |
| TestFilters.Categories | mocktest-system/src/components/TestFilters.tsx:19-23 | the loop yields "all" followed by the distinct categories of the tests |
| TestFilters.CategoriesSpec | mocktest-system/src/components/TestFilters.tsx:19-23 | "all" first; every test's category is offered; nothing else is; no duplicates after "all"; first-occurrence order |
| HomeClient.Featured | mocktest-system/src/components/HomeClient.tsx:23 | the first `min(6, n)` filtered tests |
| HomeClient.HomeFiltersSpec | mocktest-system/src/components/HomeClient.tsx:110-127 | an order-preserving subsequence holding exactly the tests that pass search, difficulty and category |
| HomeClient.HomeInitialShowsAll | mocktest-system/src/components/HomeClient.tsx:16-22 | the initial filters keep every test |
| HomeClient.HomeSearchNarrows | mocktest-system/src/components/HomeClient.tsx:113-121 | any search lists a subsequence of what the empty search lists |
| HomeClient.HomeSearchIgnoresCase | mocktest-system/src/components/HomeClient.tsx:113-121 | a search text and its lower-case form list the same tests |
| HomeClient.SameTagMatches | mocktest-system/src/components/HomeClient.tsx:117-121 | a tag matches a search iff it matches its lower-case form |
| TestsPage.PageFiltersSpec | mocktest-system/src/app/tests/page.tsx:63-74 | an order-preserving subsequence holding exactly the tests that pass the three filters; the initial filters keep every test |
| TestsPage.HomeMatchesPageOrTag | mocktest-system/src/app/tests/page.tsx:66-69 | the home filter passes iff this page's passes or a tag matches a non-empty search under the same difficulty and category |
| TestsPage.PageWithinHome | mocktest-system/src/app/tests/page.tsx:63-74 | this page lists a subsequence of the home list, and the same list for an empty search |
| TestsPage.WithoutTagsPagesAgree | mocktest-system/src/app/tests/page.tsx:66-69 | without matching tags both pages list the same tests |
| TestLookup.ResolveTestSpec | mocktest-system/src/components/TestRunnerClient.tsx:19-22 | the first catalogue match wins; without one the server's test; nothing iff both are missing |
| TestLookup.LastAttempt | mocktest-system/src/components/TestRunnerClient.tsx:24-27 | the newest attempt of that test, i.e. the first in the newest-first history; none iff the history has none |
| TestLookup.LastAttemptAfterAdd | mocktest-system/src/components/TestRunnerClient.tsx:24-27 | a just-added attempt is the last of its test; other tests' last attempts are unchanged |
| TestRunnerClient.RunnerClientViewSpec | mocktest-system/src/components/TestRunnerClient.tsx:19-44 | "Test not found" iff no test resolves; otherwise the first catalogue test with the id, else the server's test, shown with the newest attempt of that id, and with none only when the history holds none |
| TestRunnerClient.SubmitAndRecord | mocktest-system/src/components/TestRunnerClient.tsx:70-75 | the scored attempt is added once in front of the history, which stays persisted, and becomes the test's last attempt |
| TestDetailClient.DetailAgreesWithRunner | mocktest-system/src/components/TestDetailClient.tsx:16-21 | the detail page resolves exactly as the runner page: not found together, otherwise the same test |
| Seqs.Filter | mocktest-system/src/components/HomeClient.tsx:112 | no longer than the input; keeps exactly the elements that satisfy the predicate |
| Seqs.FindFirst | mocktest-system/src/hooks/useTests.ts:18 | none iff nothing satisfies the predicate; otherwise the first element of the input that does |
| Seqs.MapWhere | mocktest-system/src/hooks/useTests.ts:19 | same length; entries with the key are mapped and the others are identical |
| Seqs.RemoveByKey | mocktest-system/src/hooks/useTests.ts:27 | removal by key keeps the others in order, keeps keys unique, and is one shorter iff the key was present |
| Seqs.FilterMonotone | mocktest-system/src/app/tests/page.tsx:65 | a weaker predicate keeps a supersequence |
| Seqs.FindFirstFilter | mocktest-system/src/hooks/useTests.ts:27 | filtering with a predicate every match satisfies does not change what `find` returns |
| Seqs.FindFirstAfterPrefix | mocktest-system/src/hooks/useTests.ts:11-14 | a prefix without a match does not change what `find` returns |
| Seqs.FilterAgrees | mocktest-system/src/app/tests/page.tsx:65 | predicates that agree on every element keep the same list |
| Text.Trim | mocktest-system/src/components/TestBuilder.tsx:69 | the result is trimmed, no longer, and empty iff the input is blank |
| Text.TrimSlice | mocktest-system/src/components/TestBuilder.tsx:69 | the result is the input with its leading and its trailing white space cut off |
| Text.TrimAround | mocktest-system/src/components/TestBuilder.tsx:69 | white space on both sides of a trimmed text is dropped and the text comes back whole |
| Text.TrimKeepsChars | mocktest-system/src/components/TestBuilder.tsx:69 | every character of the trimmed text comes from the input |
| Text.TrimAfterSpaces | mocktest-system/src/components/TestBuilder.tsx:69 | leading white space before a trimmed text is dropped and the text comes back whole |
| Text.TrimIdempotent | mocktest-system/src/components/TestBuilder.tsx:81 | trimming twice is trimming once |
| Text.Lower | mocktest-system/src/components/HomeClient.tsx:115 | each character is lower-cased in place |
| Text.DashSpaceRuns | mocktest-system/src/components/TestBuilder.tsx:68 | no white space remains, the result is no longer, and only the empty string maps to the empty string |
| Text.DashSpaceRunsConcat | mocktest-system/src/components/TestBuilder.tsx:68 | a maximal white-space run between two pieces becomes exactly one dash, and the pieces on either side are dashed on their own |
| Text.DashSpaceRunsChars | mocktest-system/src/components/TestBuilder.tsx:68 | the only characters brought in are dashes |
| Text.DashSpaceRunsWithoutSpaces | mocktest-system/src/components/TestBuilder.tsx:68 | text without white space is left as it is |
| Text.JoinSplit | mocktest-system/src/components/TestBuilder.tsx:449-450 | joining the split pieces with the separator gives the text back |
| Text.NatToString | mocktest-system/src/components/TestRunner.tsx:22 | at least one digit, one exactly below ten, and no leading zero for a positive number |
| Text.NatToStringValue | mocktest-system/src/components/TestRunner.tsx:22 | the decimal rendering reads back to the number |
| Text.PadStart2Value | mocktest-system/src/components/TestRunner.tsx:22 | padding to two digits keeps the value |
| Text.PadStart2Spec | mocktest-system/src/components/TestRunner.tsx:22 | padding puts only zeros in front and keeps the text whole at the end |

## Left out

- Scoring: `calculateScore` comes from a module that is not part of this model. The
  session takes it as a function parameter and does not interpret it.
- Storage: `loadAttempts`, `persistAttempts`, `loadCustomTests` and `persistCustomTests`
  come from a module that is not part of this model. They are the two fields of
  `Storage.LocalStore`; a load reads a field and a persist assigns it. Serialisation and
  storage failures are not modelled.
- Built-in tests: `defaultMockTests` is not part of this model. It is the `builtIn`
  sequence of `UseTests.TestsHook`.
- Fresh ids: `uuid()` becomes id parameters. Where uniqueness matters, the callers
  require the ids to be fresh.
- Clocks: `Date.now()` is the `nowMs` argument of `Tick` and `ResetBaseline`. ISO
  timestamps are opaque strings. `setInterval` and `clearInterval` are not modelled:
  each callback is one `Tick` call, and no tick follows submission.
- React: batching, the order of state updates inside one callback and concurrent
  rendering are not modelled. Each handler is one atomic method call.
- The effect and the interval read `currentQuestion.id` from the render that set them
  up. `Tick` credits the question under the cursor at the time of the call. The effect
  is re-run whenever that question changes, so this matches the code.
- Rendering: the markup, the CSS classes and the display-only counts are not modelled.
  This includes `progressPercent`, the accuracy percentage, the question and mark counts
  in the builder's footer, and the navigator's highlight flags.
- TestRunner.Session: a session is created only for tests whose sections all hold a
  question. The component would fail on `currentQuestion.id` for an empty section;
  builder-made tests always qualify (`TestBuilder.BuildPayloadSections`).
- TestRunner.Session.GoToQuestion: requires an in-bounds position. The code does not check
  bounds, and the navigator only offers existing positions.
- TestBuilder: marks, negative marks and the duration are naturals. The `Number(...)`
  parsing of the form inputs, and its `NaN`, negative and fractional results, are not
  modelled.
- Text: white space, trimming and lower-casing cover ASCII only. Unicode case mapping
  and the full `\s` class are not modelled.
- `markedForReview` is optional in the record type but always set by the session. It is
  a plain boolean here.
- Server pages: the data loading of the server pages, and routing, are not modelled.
