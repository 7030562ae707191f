/**
  The rendered question as the handlers of js/main.js see it: the option, hotspot and
  drop-target elements as arrays updated in place, the checked radio button, the
  drag items, and the feedback box. Each method is proved equal to the corresponding
  function of `Grading`.
 */
module Quiz {
  import opened Wrappers
  import opened QuestionBank
  import opened Grading

  /** What the feedback box says; the HTML texts are abstracted to their meaning. */
  datatype Message = NoMessage | RegionFeedback(text: string) | CorrectMessage | IncorrectMessage | AnswerShownMessage

  /** The feedback box's class: '', `feedback-correct` or `feedback-incorrect`. */
  datatype FeedbackStyle = NoStyle | CorrectStyle | IncorrectStyle

  datatype Feedback = Feedback(visible: bool, message: Message, style: FeedbackStyle)

  /** The `data-type` values of the question container. */
  const MultipleChoiceTag: string := "multiple-choice"
  const HotspotTag: string := "hotspot"
  const DragDropTag: string := "drag-drop"

  /** The feedback box after grading. */
  function GradedFeedback(isCorrect: bool): Feedback {
    if isCorrect then Feedback(true, CorrectMessage, CorrectStyle)
    else Feedback(true, IncorrectMessage, IncorrectStyle)
  }

  predicate IsMultipleChoice(q: Option<Question>) {
    q.Some? && q.value.MultipleChoiceQuestion?
  }

  /** Every target's `match` names a draggable of the question (vacuous without targets). */
  predicate CanRevealTargets(ts: seq<DropTarget>, q: Option<Question>) {
    |ts| > 0 ==> q.Some? && q.value.DragDropQuestion? && MatchesInRange(ts, q.value.draggables)
  }

  class QuizPage {
    const questionType: string
    const questionId: string
    const options: array<set<Mark>>
    var checked: Option<nat>
    const hotspots: array<HotspotElement>
    const targets: array<DropTarget>
    const dragItems: seq<DragItem>
    var feedback: Feedback

    /** A freshly rendered question: nothing checked, feedback box hidden and empty. */
    constructor (questionType: string, questionId: string, options: seq<set<Mark>>,
                 hotspots: seq<HotspotElement>, targets: seq<DropTarget>, dragItems: seq<DragItem>)
      ensures this.questionType == questionType && this.questionId == questionId
      ensures fresh(this.options) && this.options[..] == options
      ensures fresh(this.hotspots) && this.hotspots[..] == hotspots
      ensures fresh(this.targets) && this.targets[..] == targets
      ensures this.dragItems == dragItems
      ensures checked == None && feedback == Feedback(false, NoMessage, NoStyle)
    {
      this.questionType := questionType;
      this.questionId := questionId;
      this.options := new set<Mark>[|options|](i requires 0 <= i < |options| => options[i]);
      this.hotspots := new HotspotElement[|hotspots|](i requires 0 <= i < |hotspots| => hotspots[i]);
      this.targets := new DropTarget[|targets|](i requires 0 <= i < |targets| => targets[i]);
      this.dragItems := dragItems;
      checked := None;
      feedback := Feedback(false, NoMessage, NoStyle);
    }

    /** A click on option `i`: it alone becomes selected and its radio is checked. */
    method SelectOption(i: nat)
      requires i < options.Length
      modifies options, this`checked
      ensures options[..] == SelectedChoices(old(options[..]), i)
      ensures checked == Some(i)
    {
      var k := 0;
      while k < options.Length
        invariant 0 <= k <= options.Length
        invariant forall j :: 0 <= j < k ==> options[j] == old(options[j]) - {Selected}
        invariant forall j :: k <= j < options.Length ==> options[j] == old(options[j])
      {
        options[k] := options[k] - {Selected};
        k := k + 1;
      }
      options[i] := options[i] + {Selected};
      checked := Some(i);
      assert options[i] == old(options[i]) + {Selected};
    }

    /** A click on hotspot `i`: it alone becomes selected. */
    method SelectHotspot(i: nat)
      requires i < hotspots.Length
      modifies hotspots
      ensures hotspots[..] == SelectedHotspots(old(hotspots[..]), i)
    {
      var k := 0;
      while k < hotspots.Length
        invariant 0 <= k <= hotspots.Length
        invariant forall j :: 0 <= j < k ==> hotspots[j] == old(hotspots[j]).(marks := old(hotspots[j]).marks - {Selected})
        invariant forall j :: k <= j < hotspots.Length ==> hotspots[j] == old(hotspots[j])
      {
        hotspots[k] := hotspots[k].(marks := hotspots[k].marks - {Selected});
        k := k + 1;
      }
      hotspots[i] := hotspots[i].(marks := hotspots[i].marks + {Selected});
      assert hotspots[i].marks == old(hotspots[i]).marks + {Selected};
    }

    /** A drop of drag item `itemId` on target `t`: the target's item is replaced. */
    method Drop(t: nat, itemId: nat)
      requires t < targets.Length
      modifies targets
      ensures targets[..] == old(targets[..])[t := old(targets[t]).(item := DroppedCopy(dragItems, itemId))]
    {
      targets[t] := targets[t].(item := None);
      var draggedItem := FindDragItem(dragItems, itemId);
      if draggedItem.Some? {
        targets[t] := targets[t].(item := Some(DroppedItem(itemId, draggedItem.value.text)));
      }
    }

    /** Grading a multiple-choice question against `question.correctAnswer`. */
    method CheckMultipleChoiceAnswer(question: Option<Question>) returns (isCorrect: bool)
      requires checked.Some? ==> IsMultipleChoice(question)
      modifies options
      ensures checked.None? ==> !isCorrect && options[..] == old(options[..])
      ensures checked.Some? ==> (isCorrect <==> checked.value == question.value.correctAnswer)
      ensures checked.Some? ==>
        options[..] == CheckedChoices(old(options[..]), checked.value, question.value.correctAnswer)
    {
      if checked.None? {
        return false;
      }
      var selectedIndex := checked.value;
      var correctIndex := question.value.correctAnswer;
      var i := 0;
      while i < options.Length
        invariant 0 <= i <= options.Length
        invariant forall k :: 0 <= k < i ==> options[k] == CheckedChoice(old(options[k]), k, selectedIndex, correctIndex)
        invariant forall k :: i <= k < options.Length ==> options[k] == old(options[k])
      {
        if i == correctIndex {
          options[i] := options[i] + {Correct};
        } else if i == selectedIndex && selectedIndex != correctIndex {
          options[i] := options[i] + {Incorrect};
        }
        i := i + 1;
      }
      isCorrect := selectedIndex == correctIndex;
    }

    /**
      Grading a hotspot question: the first selected region decides; its feedback
      text is written into the feedback box.
     */
    method CheckHotspotAnswer() returns (isCorrect: bool)
      modifies hotspots, this`feedback
      ensures isCorrect == HotspotVerdict(old(hotspots[..]))
      ensures hotspots[..] == HotspotsAfterCheck(old(hotspots[..]))
      ensures var s := FirstSelected(old(hotspots[..]));
        feedback == if s.None? then old(feedback)
                    else old(feedback).(message := RegionFeedback(old(hotspots[..])[s.value].feedback))
    {
      var selectedHotspot := FirstSelected(hotspots[..]);
      if selectedHotspot.None? {
        return false;
      }
      var s := selectedHotspot.value;
      isCorrect := hotspots[s].correct;
      var i := 0;
      while i < hotspots.Length
        invariant 0 <= i <= hotspots.Length
        invariant forall k :: 0 <= k < i ==> hotspots[k] == CheckedHotspot(old(hotspots[k]), k, s, isCorrect)
        invariant forall k :: i <= k < hotspots.Length ==> hotspots[k] == old(hotspots[k])
        invariant feedback == old(feedback)
      {
        var h := hotspots[i];
        if h.correct {
          hotspots[i] := h.(marks := h.marks + {Correct});
        } else if i == s && !isCorrect {
          hotspots[i] := h.(marks := h.marks + {Incorrect});
        }
        i := i + 1;
      }
      assert hotspots[s].feedback == old(hotspots[..])[s].feedback;
      feedback := feedback.(message := RegionFeedback(hotspots[s].feedback));
    }

    /** Grading a drag-and-drop question: all or nothing, with a mark per filled target. */
    method CheckDragDropAnswer() returns (isCorrect: bool)
      modifies targets
      ensures isCorrect <==> AllMatched(old(targets[..]))
      ensures targets[..] == CheckedTargets(old(targets[..]))
    {
      var correctCount := 0;
      var totalTargets := targets.Length;
      var i := 0;
      while i < targets.Length
        invariant 0 <= i <= targets.Length
        invariant correctCount == CorrectCount(old(targets[..])[..i])
        invariant forall k :: 0 <= k < i ==> targets[k] == CheckedTarget(old(targets[k]))
        invariant forall k :: i <= k < targets.Length ==> targets[k] == old(targets[k])
      {
        assert old(targets[..])[..i + 1][..i] == old(targets[..])[..i];
        var target := targets[i];
        if target.item.Some? {
          if target.item.value.id == target.matchIndex {
            targets[i] := target.(marks := target.marks + {Correct});
            correctCount := correctCount + 1;
          } else {
            targets[i] := target.(marks := target.marks + {Incorrect});
          }
        }
        i := i + 1;
      }
      assert old(targets[..])[..i] == old(targets[..]);
      AllOrNothing(old(targets[..]));
      isCorrect := correctCount == totalTargets;
    }

    /**
      The "check answer" button: grade by the container's `data-type`, then show a
      message that depends only on the verdict. An unknown type grades as wrong.
     */
    method CheckAnswer(questions: seq<Question>) returns (isCorrect: bool)
      requires questionType == MultipleChoiceTag && checked.Some? ==>
        IsMultipleChoice(FindById(questions, questionId))
      modifies options, hotspots, targets, this`feedback
      ensures questionType == MultipleChoiceTag && checked.None? ==> !isCorrect && options[..] == old(options[..])
      ensures questionType == MultipleChoiceTag && checked.Some? ==>
        var key := FindById(questions, questionId).value.correctAnswer;
        (isCorrect <==> checked.value == key) &&
        options[..] == CheckedChoices(old(options[..]), checked.value, key)
      ensures questionType == HotspotTag ==>
        isCorrect == HotspotVerdict(old(hotspots[..])) && hotspots[..] == HotspotsAfterCheck(old(hotspots[..]))
      ensures questionType == DragDropTag ==>
        (isCorrect <==> AllMatched(old(targets[..]))) && targets[..] == CheckedTargets(old(targets[..]))
      ensures questionType !in {MultipleChoiceTag, HotspotTag, DragDropTag} ==> !isCorrect
      ensures questionType != MultipleChoiceTag ==> options[..] == old(options[..])
      ensures questionType != HotspotTag ==> hotspots[..] == old(hotspots[..])
      ensures questionType != DragDropTag ==> targets[..] == old(targets[..])
      ensures feedback == GradedFeedback(isCorrect)
    {
      var currentQuestion := FindById(questions, questionId);
      isCorrect := false;
      if questionType == MultipleChoiceTag {
        isCorrect := CheckMultipleChoiceAnswer(currentQuestion);
      } else if questionType == HotspotTag {
        isCorrect := CheckHotspotAnswer();
      } else if questionType == DragDropTag {
        isCorrect := CheckDragDropAnswer();
      }
      feedback := GradedFeedback(isCorrect);
    }

    /** Showing a multiple-choice answer: only the key's option stays marked, and its radio is checked. */
    method ShowMultipleChoiceAnswer(question: Option<Question>)
      requires IsMultipleChoice(question)
      modifies options, this`checked
      ensures options[..] == RevealedChoices(old(options[..]), question.value.correctAnswer)
      ensures checked == if question.value.correctAnswer < options.Length
                         then Some(question.value.correctAnswer) else old(checked)
    {
      var correctIndex := question.value.correctAnswer;
      var i := 0;
      while i < options.Length
        invariant 0 <= i <= options.Length
        invariant forall k :: 0 <= k < i ==>
          options[k] == (old(options[k]) - {Selected, Correct, Incorrect}) + (if k == correctIndex then {Correct} else {})
        invariant forall k :: i <= k < options.Length ==> options[k] == old(options[k])
        invariant checked == if correctIndex < i then Some(correctIndex) else old(checked)
      {
        options[i] := options[i] - {Selected, Correct, Incorrect};
        if i == correctIndex {
          options[i] := options[i] + {Correct};
          checked := Some(i);
        }
        i := i + 1;
      }
    }

    /** Showing a hotspot answer: exactly the correct regions are selected and marked correct. */
    method ShowHotspotAnswer()
      modifies hotspots
      ensures hotspots[..] == RevealedHotspots(old(hotspots[..]))
    {
      var i := 0;
      while i < hotspots.Length
        invariant 0 <= i <= hotspots.Length
        invariant forall k :: 0 <= k < i ==> hotspots[k] == RevealedHotspot(old(hotspots[k]))
        invariant forall k :: i <= k < hotspots.Length ==> hotspots[k] == old(hotspots[k])
      {
        var h := hotspots[i];
        h := h.(marks := h.marks - {Selected, Correct, Incorrect});
        if h.correct {
          h := h.(marks := h.marks + {Correct});
          h := h.(marks := h.marks + {Selected});
        }
        hotspots[i] := h;
        i := i + 1;
      }
    }

    /** Showing a drag-and-drop answer: each target gets the draggable its `match` names. */
    method ShowDragDropAnswer(question: Option<Question>)
      requires CanRevealTargets(targets[..], question)
      modifies targets
      ensures targets.Length > 0 ==>
        targets[..] == RevealedTargets(old(targets[..]), question.value.draggables)
    {
      var i := 0;
      while i < targets.Length
        invariant 0 <= i <= targets.Length
        invariant forall k :: 0 <= k < i ==> targets[k] == RevealedTarget(old(targets[k]), question.value.draggables)
        invariant forall k :: i <= k < targets.Length ==> targets[k] == old(targets[k])
      {
        var target := targets[i];
        target := target.(marks := target.marks - {Correct, Incorrect});
        target := target.(item := None);
        var correctMatch := target.matchIndex;
        var correctItem := question.value.draggables[correctMatch];
        target := target.(item := Some(DroppedItem(correctMatch, correctItem.text)));
        target := target.(marks := target.marks + {Correct});
        targets[i] := target;
        i := i + 1;
      }
    }

    /** The "show answer" button: reveal by the container's `data-type`, then say so. */
    method ShowAnswer(questions: seq<Question>)
      requires questionType == MultipleChoiceTag ==> IsMultipleChoice(FindById(questions, questionId))
      requires questionType == DragDropTag ==> CanRevealTargets(targets[..], FindById(questions, questionId))
      modifies options, hotspots, targets, this`checked, this`feedback
      ensures questionType == MultipleChoiceTag ==>
        var key := FindById(questions, questionId).value.correctAnswer;
        options[..] == RevealedChoices(old(options[..]), key) &&
        checked == if key < options.Length then Some(key) else old(checked)
      ensures questionType == HotspotTag ==> hotspots[..] == RevealedHotspots(old(hotspots[..]))
      ensures questionType == DragDropTag && targets.Length > 0 ==>
        targets[..] == RevealedTargets(old(targets[..]), FindById(questions, questionId).value.draggables)
      ensures questionType != MultipleChoiceTag ==> options[..] == old(options[..]) && checked == old(checked)
      ensures questionType != HotspotTag ==> hotspots[..] == old(hotspots[..])
      ensures questionType != DragDropTag ==> targets[..] == old(targets[..])
      ensures feedback == Feedback(true, AnswerShownMessage, NoStyle)
    {
      var currentQuestion := FindById(questions, questionId);
      if questionType == MultipleChoiceTag {
        ShowMultipleChoiceAnswer(currentQuestion);
      } else if questionType == HotspotTag {
        ShowHotspotAnswer();
      } else if questionType == DragDropTag {
        ShowDragDropAnswer(currentQuestion);
      }
      feedback := Feedback(true, AnswerShownMessage, NoStyle);
    }
  }
}
