/**
  Concrete runs over the question bank, proved from the contracts of `QuizSession`
  and `QuizPage` alone: the "capital of France" question, a drag-and-drop answer
  with three of four targets right, a wrong hotspot click, and three "new question"
  steps through the multiple-choice list.
 */
module Scenarios {
  import opened Wrappers
  import opened QuestionBank
  import opened Session
  import opened Grading
  import opened Quiz

  /** Three "new question" clicks from the start return to the first multiple-choice question. */
  method NewQuestionCycle() returns (indices: seq<nat>)
    ensures indices == [1, 2, 0]
  {
    var session := new QuizSession();
    assert |QuestionData.Questions(MultipleChoice)| == 3;
    session.NewQuestion();
    var first := session.currentQuestionIndex;
    session.NewQuestion();
    var second := session.currentQuestionIndex;
    session.NewQuestion();
    indices := [first, second, session.currentQuestionIndex];
  }

  /** Choosing "Paris" (option 2) for the first question grades as correct. */
  method CapitalOfFrance() returns (isCorrect: bool, marks: seq<set<Mark>>, feedback: Feedback)
    ensures isCorrect
    ensures marks == [{}, {}, {Selected, Correct}, {}]
    ensures feedback == Feedback(true, CorrectMessage, CorrectStyle)
  {
    var questions := QuestionData.Questions(MultipleChoice);
    var page := new QuizPage(MultipleChoiceTag, "mc1", [{}, {}, {}, {}], [], [], []);
    page.SelectOption(2);
    ghost var selected := page.options[..];
    assert selected == [{}, {}, {Selected}, {}] by {
      assert selected[0] == {} && selected[1] == {} && selected[2] == {Selected} && selected[3] == {};
    }
    assert FindById(questions, "mc1") == Some(questions[0]) by {
      MultipleChoiceListIsValid();
      FindByIdRoundTrip(questions, 0);
    }
    isCorrect := page.CheckAnswer(questions);
    marks := page.options[..];
    assert marks == [{}, {}, {Selected, Correct}, {}] by {
      assert marks == CheckedChoices(selected, 2, 2);
      assert marks[0] == {} && marks[1] == {} && marks[2] == {Selected, Correct} && marks[3] == {};
    }
    feedback := page.feedback;
  }

  /** The drop targets of a drag-and-drop question as rendered: empty and unmarked. */
  function RenderedTargets(specs: seq<DropTargetSpec>): seq<DropTarget>
  {
    seq(|specs|, k requires 0 <= k < |specs| => DropTarget(None, specs[k].matchIndex, {}))
  }

  /** The drag items of a drag-and-drop question as rendered: `data-id` is the position. */
  function RenderedDragItems(ds: seq<Draggable>): seq<DragItem>
  {
    seq(|ds|, k requires 0 <= k < |ds| => DragItem(k, ds[k].text))
  }

  /** The rendered "Match each CSS property" question: four empty targets, four drag items. */
  lemma DragDropRendering()
    ensures RenderedTargets(QuestionData.Questions(DragDrop)[0].dropTargets) ==
      [DropTarget(None, 0, {}), DropTarget(None, 1, {}), DropTarget(None, 2, {}), DropTarget(None, 3, {})]
    ensures RenderedDragItems(QuestionData.Questions(DragDrop)[0].draggables) ==
      [DragItem(0, "margin"), DragItem(1, "color"), DragItem(2, "font-size"), DragItem(3, "transition")]
  {
  }

  /** Drops the right items on the first three targets of the rendered question. */
  method FillFirstThree() returns (page: QuizPage)
    ensures fresh(page.targets)
    ensures page.targets.Length == 4
    ensures forall k :: 0 <= k < 3 ==> IsMatched(page.targets[k]) && page.targets[k].marks == {}
    ensures page.targets[3] == DropTarget(None, 3, {})
    ensures page.dragItems == [DragItem(0, "margin"), DragItem(1, "color"), DragItem(2, "font-size"), DragItem(3, "transition")]
  {
    var q := QuestionData.Questions(DragDrop)[0];
    DragDropRendering();
    page := new QuizPage(DragDropTag, "dd1", [], [], RenderedTargets(q.dropTargets), RenderedDragItems(q.draggables));
    var items := page.dragItems;
    assert items[0].id == 0 && items[1].id == 1 && items[2].id == 2;
    page.Drop(0, 0);
    page.Drop(1, 1);
    page.Drop(2, 2);
  }

  /**
    Three targets right and the fourth holding the wrong item: the answer is wrong,
    yet three targets are marked correct and one incorrect.
   */
  method ThreeOfFourTargets() returns (isCorrect: bool, marks: seq<set<Mark>>)
    ensures !isCorrect && marks == [{Correct}, {Correct}, {Correct}, {Incorrect}]
  {
    var page := FillFirstThree();
    assert page.dragItems[0].id == 0;
    page.Drop(3, 0);
    ghost var filled := page.targets[..];
    assert filled[3].item.Some? && !IsMatched(filled[3]) && filled[3].marks == {};
    assert forall k :: 0 <= k < 3 ==> IsMatched(filled[k]) && filled[k].marks == {};
    isCorrect := page.CheckDragDropAnswer();
    assert !AllMatched(filled) by {
      assert !IsMatched(filled[3]);
    }
    forall k | 0 <= k < 4
      ensures page.targets[k].marks == if k < 3 then {Correct} else {Incorrect}
    {
      assert page.targets[..][k] == CheckedTargets(filled)[k];
    }
    marks := [page.targets[0].marks, page.targets[1].marks, page.targets[2].marks, page.targets[3].marks];
  }

  /** Three targets right and the fourth left empty: wrong, and the empty target stays unmarked. */
  method ThreeTargetsFilled() returns (isCorrect: bool, marks: seq<set<Mark>>)
    ensures !isCorrect && marks == [{Correct}, {Correct}, {Correct}, {}]
  {
    var page := FillFirstThree();
    ghost var filled := page.targets[..];
    isCorrect := page.CheckDragDropAnswer();
    assert !AllMatched(filled) by {
      assert !IsMatched(filled[3]);
    }
    forall k | 0 <= k < 4
      ensures page.targets[k].marks == if k < 3 then {Correct} else {}
    {
      assert page.targets[..][k] == CheckedTargets(filled)[k];
    }
    marks := [page.targets[0].marks, page.targets[1].marks, page.targets[2].marks, page.targets[3].marks];
  }

  /** The regions of a hotspot question as rendered: unmarked. */
  function RenderedHotspots(rs: seq<Region>): seq<HotspotElement>
  {
    seq(|rs|, k requires 0 <= k < |rs| => HotspotElement(rs[k].correct, rs[k].feedback, {}))
  }

  /**
    Clicking the `h2` region grades as wrong; the region's own feedback text is
    overwritten by the verdict message. Showing the answer then makes the next
    grading pass.
   */
  method WrongHotspotThenReveal() returns (first: bool, firstFeedback: Feedback, second: bool)
    ensures !first && firstFeedback == Feedback(true, IncorrectMessage, IncorrectStyle)
    ensures second
  {
    var regions := QuestionData.Questions(Hotspot)[0].hotspots;
    var hs := RenderedHotspots(regions);
    assert |hs| == 4 && hs[0].correct && !hs[1].correct;
    var page := new QuizPage(HotspotTag, "hs1", [], hs, [], []);
    page.SelectHotspot(1);
    SelectThenGradeHotspot(hs, 1);
    first := page.CheckAnswer(QuestionData.Questions(Hotspot));
    firstFeedback := page.feedback;
    ghost var graded := page.hotspots[..];
    assert |graded| == 4 && graded[0].correct;
    page.ShowAnswer(QuestionData.Questions(Hotspot));
    RevealedHotspotsMarks(graded);
    second := page.CheckHotspotAnswer();
  }
}
