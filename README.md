# Interactive quiz: grading, "show answer" and navigation

A browser quiz widget shows one question at a time from a constant question bank.
There are three kinds of question: multiple choice, hotspot (click a region of a
diagram) and drag-and-drop matching. The user answers, then presses "check answer"
or "show answer". "New question" steps through the questions of the active type.
This project models the widget's logic in Dafny and proves what that logic
guarantees.

The document tree is abstracted as follows:

- Every option, hotspot region and drop target carries a set of marks. The marks
  stand for its `selected`, `correct` and `incorrect` CSS classes.
- The options are an `array<set<Mark>>`. The checked radio button is an
  `Option<nat>`.
- The hotspots are an `array<HotspotElement>`. Each element holds the region's
  `data-correct` flag, its `data-feedback` text and its marks.
- The drop targets are an `array<DropTarget>`. Each target holds the dropped item,
  if there is one, its `data-match` and its marks.
- The feedback box is a `Feedback` value: whether it is shown, what it says and its
  style.

Modules:

- `QuestionBank` (`question_bank.dfy`): the bank `QuestionData`, its data
  invariants, `getCurrentQuestion`, and the look-up by id.
- `Session` (`session.dfy`): the class `QuizSession`. Its two fields are
  `currentQuestionType` and `currentQuestionIndex`. The module also proves the
  wrap-around law of "new question".
- `Grading` (`grading.dfy`): pure functions giving the marks and verdict after
  select, check, show-answer and drop, with lemmas on what they mean.
- `Quiz` (`quiz.dfy`): the class `QuizPage`. It is the rendered question, and its
  handlers update the arrays in place. Each method is proved equal to a `Grading`
  function.
- `Scenarios` (`scenarios.dfy`): concrete runs over the bank, proved from the
  class contracts alone.
- `Wrappers` (`wrappers.dfy`): `Option`, and the first-match search that `find` and
  `querySelector` perform.

## Behaviour worth knowing

- Drag-and-drop: an empty target is left unmarked. It is not annotated "incorrect".
  It still makes the verdict false, because `correctCount` cannot reach the number
  of targets.
- Hotspot: the selected region's feedback text is written to the feedback box. Then
  `checkAnswer` overwrites it with the correct/incorrect message, so the region's
  text is never what the user is left with.
- Hotspot grading with no region selected returns `false`. It is not an error.
- `getCurrentQuestion` past the end of a list yields `undefined` (here `None`). It
  is not an error.

## Model

| member | source | states |
|---|---|---|
| `QuestionBank.MultipleChoiceListIsValid` | js/templates.js:10-29 | the three multiple-choice questions have distinct ids, and each `correctAnswer` indexes its `options` |
| `QuestionBank.HotspotListIsValid` | js/templates.js:49-54 | the hotspot question has exactly one region flagged correct |
| `QuestionBank.DragDropListIsValid` | js/templates.js:62-73 | every drop target's `match` is a valid index into `draggables`, and no two targets share a `match` |
| `QuestionBank.QuestionDataIsValid` | js/templates.js:9-76 | every list of the bank is non-empty, holds only questions of its own type, has distinct ids and well-formed questions |
| `QuestionBank.GetCurrentQuestion` | js/templates.js:114-116 | yields element `index` of the type's list exactly when `index` is below the list's length; that question has the requested type and a well-formed answer key |
| `Wrappers.FindIndex` | js/main.js:107 | `find`: nothing exactly when no element satisfies the test; otherwise the first element that does |
| `QuestionBank.FindByIdRoundTrip` | js/main.js:107 | in a list with distinct ids, looking up a question's own id returns that question |
| `Session.NextIndex` | js/templates.js:161 | one "new question" step stays below the list length, moves to the next index, and wraps to 0 after the last |
| `Session.AdvanceWraps` | js/templates.js:161 | k steps from a valid index land on `(index + k) mod length` |
| `Session.FullCycleReturns` | js/templates.js:161 | `length` steps return to the starting index, and no smaller positive number of steps does |
| `Session.MultipleChoiceCycle` | js/templates.js:10-29 | with the three multiple-choice questions, steps from 0 visit 1, then 2, then 0 again |
| `Session.QuizSession.constructor` | js/templates.js:79-80 | the session starts at the first multiple-choice question |
| `Session.QuizSession.SetActiveQuestionType` | js/templates.js:134-136 | sets the active type, resets the index to 0, and the index names a question |
| `Session.QuizSession.NewQuestion` | js/templates.js:159-161 | only the index changes; it becomes `(index + 1) mod length` of the active list and stays in range |
| `Session.QuizSession.CurrentQuestion` | js/templates.js:162 | the question rendered for the session is the bank's entry for its type and index, of that type and well-formed |
| `Grading.SelectedChoicesMarks` | js/main.js:13-16 | after a click on an option, only that option is selected, and its other marks are untouched |
| `Grading.CheckedChoicesMarks` | js/main.js:145-151 | grading marks the `correctAnswer` option correct; it marks the selected option incorrect only when it is not the key; other options gain nothing, and no mark is removed |
| `Grading.RevealedChoicesMarks` | js/main.js:240-247 | after "show answer", the key's option carries only `correct`, and every other option carries nothing |
| `Grading.FirstSelected` | js/main.js:158-160 | `.hotspot.selected` finds the first selected region, or nothing when none is selected |
| `Grading.SelectThenGradeHotspot` | js/main.js:160-162 | after a click on region i, grading reads exactly region i's `correct` flag |
| `Grading.CheckedHotspotsMarks` | js/main.js:167-173 | every region flagged correct is marked correct; the selected region is marked incorrect only when its flag is false; flags, feedback and existing marks stay |
| `Grading.RevealedHotspotsMarks` | js/main.js:254-261 | after "show answer", exactly the correct regions are selected and marked correct; grading then succeeds exactly when some region is correct |
| `Grading.CorrectCount` | js/main.js:185-202 | `correctCount` never exceeds the number of targets |
| `Grading.AllOrNothing` | js/main.js:185-204 | `correctCount === totalTargets` holds exactly when every target holds an item whose id is its `match`; one empty or mismatched target makes it false, and no targets makes it true |
| `Grading.CheckedTargetsMarks` | js/main.js:188-202 | each filled target is marked correct if its item id equals its `match` and incorrect otherwise; empty targets are unchanged; items never move |
| `Grading.CheckingKeepsVerdict` | js/main.js:188-204 | grading changes only marks, so grading again gives the same count and verdict |
| `Grading.RevealedTargetsMatch` | js/main.js:268-289 | after "show answer", each target holds exactly one item, with id `match` and the text of `draggables[match]`; it is marked correct and not incorrect, and grading would pass |
| `Grading.RevealIsIdempotent` | js/main.js:268-289 | showing the drag-and-drop answer twice leaves the same targets as showing it once |
| `Grading.DropDecidesMatch` | js/main.js:77-88 | after dropping an existing item, the target matches exactly when the item's id is the target's `match` |
| `Quiz.QuizPage.constructor` | js/templates.js:106-110 | a rendered question has nothing checked and its feedback box hidden and empty |
| `Quiz.QuizPage.SelectOption` | js/main.js:10-21 | a click on an option: its marks become `SelectedChoices` and its radio is the checked one |
| `Quiz.QuizPage.SelectHotspot` | js/main.js:29-36 | a click on a region: the hotspots become `SelectedHotspots` |
| `Quiz.QuizPage.Drop` | js/main.js:69-92 | a drop changes only that target's item: it becomes a copy of the dragged item, or nothing when no drag item has the id |
| `Quiz.QuizPage.CheckMultipleChoiceAnswer` | js/main.js:134-154 | false and no marks with no radio checked; otherwise true exactly when the checked index is `correctAnswer`, with the marks of `CheckedChoices` |
| `Quiz.QuizPage.CheckHotspotAnswer` | js/main.js:157-180 | returns the first selected region's flag, or false with none; marks as `CheckedHotspots`; writes that region's feedback text |
| `Quiz.QuizPage.CheckDragDropAnswer` | js/main.js:183-205 | true exactly when every target holds its matching item; marks as `CheckedTargets` |
| `Quiz.QuizPage.CheckAnswer` | js/main.js:97-131 | dispatches on `data-type`; with no radio checked, multiple choice grades false and leaves the options unchanged; an unknown type grades false and changes no marks; the feedback box then depends only on the verdict |
| `Quiz.QuizPage.ShowMultipleChoiceAnswer` | js/main.js:236-248 | options become `RevealedChoices`; the key's radio is checked when the key indexes an option |
| `Quiz.QuizPage.ShowHotspotAnswer` | js/main.js:251-262 | hotspots become `RevealedHotspots` |
| `Quiz.QuizPage.ShowDragDropAnswer` | js/main.js:265-290 | targets become `RevealedTargets` for the question's draggables |
| `Quiz.QuizPage.ShowAnswer` | js/main.js:208-233 | dispatches on `data-type`, changes only the active kind's elements, then shows "the correct answer is shown above"; for multiple choice the options become `RevealedChoices` and the key's radio is checked when the key indexes an option |
| `Scenarios.NewQuestionCycle` | js/templates.js:159-162 | three "new question" clicks from the start visit indices 1, 2, 0 |
| `Scenarios.CapitalOfFrance` | js/templates.js:11-16 | choosing option 2 for "What is the capital of France?" grades correct, marks it selected and correct, and shows the correct message |
| `Scenarios.DragDropRendering` | js/templates.js:62-73 | the rendered CSS-property question has four empty targets matching 0..3 and four drag items with ids 0..3 |
| `Scenarios.FillFirstThree` | js/main.js:69-92 | dropping items 0, 1, 2 on the first three targets fills them with their matches and leaves the fourth empty |
| `Scenarios.ThreeOfFourTargets` | js/main.js:183-205 | three right targets and one wrong item: verdict false, with three targets marked correct and one incorrect |
| `Scenarios.ThreeTargetsFilled` | js/main.js:188-191 | three right targets and one empty: verdict false, and the empty target stays unmarked |
| `Scenarios.WrongHotspotThenReveal` | js/main.js:121-130 | a click on the h2 region grades false, and the region's feedback is replaced by the incorrect message; after "show answer", grading passes |

## Left out

- js/svgHandler.js: it builds decorative diagram nodes from floating-point coordinates, and it states no behaviour to prove.
- Template compilation with doT, and the HTML that `renderQuestion` writes (js/templates.js:2-6, 83-111). These are calls into a foreign library. The HTML templates are not part of this model. Only the feedback reset of `renderQuestion` is modelled, as the page constructor. The `Rendered*` functions of `Scenarios` assume how a question is rendered: elements appear in list order, and a drag item's `data-id` is its index.
- Event-listener registration, `dataTransfer`, `DOMContentLoaded`, the `dragging` and `drag-over` classes, and the active navigation button (js/main.js:10-93, js/templates.js:119-131, 138-152, 158-172, 182). Only the state change of each handler is modelled.
- `parseInt` on `data-*` strings: ids and indices are natural numbers. `NaN` is not modelled. `data-correct === 'true'` is a boolean.
- The feedback HTML texts and CSS display: `Message` and `FeedbackStyle` stand for them.
- The hotspot question's `svgContent` and the regions' coordinates matter only for drawing. The coordinates are kept as data and used nowhere.
- The question type is a three-valued datatype in the session. The type buttons only ever pass the three bank keys.
- Modulo by zero on an empty list: `QuestionDataIsValid` proves that every list of the bank is non-empty, so the case cannot arise.
- `checkAnswer` and `showAnswer` look up `questionData[currentQuestionType]`. `Quiz.QuizPage.CheckAnswer` and `Quiz.QuizPage.ShowAnswer` take that list as a parameter. The caller passes `QuestionData.Questions(session.currentQuestionType)`.
- Quiz.QuizPage.CheckMultipleChoiceAnswer: requires a multiple-choice question when a radio is checked. CheckAnswer states the same requirement. Two cases are left out:
  - `find` returns `undefined`: the source throws a TypeError reading `correctAnswer`.
  - `find` returns a question of another kind: the source does not throw. `correctAnswer` reads as `undefined`, the selected option is marked incorrect, and grading returns false (js/main.js:140-153).
  
  The program never reaches the second case, because the list searched is the active type's (js/main.js:107). The model does not promise its marks.
- Quiz.QuizPage.ShowMultipleChoiceAnswer: requires a multiple-choice question. ShowAnswer states the same requirement. Two cases are left out:
  - `find` returns `undefined`: the source throws.
  - `find` returns a question of another kind: the source clears every option's marks and checks no radio (js/main.js:240-247).
  
  The program never reaches the second case, because the list searched is the active type's (js/main.js:214). The model does not promise that outcome.
- The radio's value is taken to be its position. `SelectOption(i)` checks radio `i`, and grading reads that index as `selectedIndex`. The source reads `parseInt(selectedOption.value)` (js/main.js:139), and the template that writes each radio's `value` is not part of this model. Every multiple-choice method of `Quiz.QuizPage` depends on this assumption.
- Quiz.QuizPage.ShowDragDropAnswer: requires every target's `match` to index the question's `draggables`. The source throws a TypeError part-way through the targets otherwise. The targets updated before the throw are not modelled.
- The checked radio button and the `selected` mark are kept apart, as in the source. Only the click handler keeps them in step.
