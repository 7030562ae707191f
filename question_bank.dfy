/**
  The quiz's constant question bank and the lookups on it (js/templates.js).
  The bank is loaded once and never changes; it is a module constant here.
 */
module QuestionBank {
  import opened Wrappers

  /** The keys of the bank: `multipleChoice`, `hotspot`, `dragDrop`. */
  datatype QuestionType = MultipleChoice | Hotspot | DragDrop

  /** A clickable region of a hotspot diagram. */
  datatype Region = Region(x: int, y: int, correct: bool, feedback: string)

  datatype Draggable = Draggable(text: string)

  /** A drop target's label and `match`, the index of the draggable that belongs in it. */
  datatype DropTargetSpec = DropTargetSpec(targetLabel: string, matchIndex: nat)

  datatype Question =
    | MultipleChoiceQuestion(id: string, questionText: string, options: seq<string>, correctAnswer: nat)
    | HotspotQuestion(id: string, questionText: string, hotspots: seq<Region>)
    | DragDropQuestion(id: string, questionText: string, draggables: seq<Draggable>, dropTargets: seq<DropTargetSpec>)
  {
    function Type(): QuestionType {
      match this
      case MultipleChoiceQuestion(_, _, _, _) => MultipleChoice
      case HotspotQuestion(_, _, _) => Hotspot
      case DragDropQuestion(_, _, _, _) => DragDrop
    }
  }

  /** The bank: one ordered list of questions per question type. */
  datatype Bank = Bank(multipleChoice: seq<Question>, hotspot: seq<Question>, dragDrop: seq<Question>)
  {
    function Questions(t: QuestionType): seq<Question> {
      match t
      case MultipleChoice => multipleChoice
      case Hotspot => hotspot
      case DragDrop => dragDrop
    }
  }

  const QuestionData: Bank := Bank(
    [ MultipleChoiceQuestion("mc1", "What is the capital of France?",
        ["London", "Berlin", "Paris", "Madrid"], 2),
      MultipleChoiceQuestion("mc2", "Which planet is known as the Red Planet?",
        ["Venus", "Mars", "Jupiter", "Saturn"], 1),
      MultipleChoiceQuestion("mc3", "Which HTML tag is used to create a hyperlink?",
        ["<link>", "<a>", "<href>", "<url>"], 1) ],
    [ HotspotQuestion("hs1", "Identify the HTML element that creates the largest heading.",
        [ Region(200, 70, true, "Correct! The h1 element creates the largest heading in HTML."),
          Region(200, 120, false, "The h2 element creates the second largest heading."),
          Region(200, 170, false, "The p element creates a paragraph, not a heading."),
          Region(200, 220, false, "The div element is a generic container, not a heading.") ]) ],
    [ DragDropQuestion("dd1", "Match each CSS property with its category.",
        [ Draggable("margin"), Draggable("color"), Draggable("font-size"), Draggable("transition") ],
        [ DropTargetSpec("Layout", 0), DropTargetSpec("Visual", 1),
          DropTargetSpec("Typography", 2), DropTargetSpec("Animation", 3) ]) ]
  )

  /** Exactly one region of a hotspot question is flagged correct. */
  predicate ExactlyOneCorrect(rs: seq<Region>) {
    exists i :: 0 <= i < |rs| && rs[i].correct && forall j :: 0 <= j < |rs| && rs[j].correct ==> j == i
  }

  /** The answer key of a question points inside the question. */
  predicate WellFormed(q: Question) {
    match q
    case MultipleChoiceQuestion(_, _, options, correctAnswer) =>
      correctAnswer < |options|
    case HotspotQuestion(_, _, hotspots) =>
      ExactlyOneCorrect(hotspots)
    case DragDropQuestion(_, _, draggables, targets) =>
      (forall i :: 0 <= i < |targets| ==> targets[i].matchIndex < |draggables|) &&
      (forall i, j :: 0 <= i < j < |targets| ==> targets[i].matchIndex != targets[j].matchIndex)
  }

  predicate DistinctIds(qs: seq<Question>) {
    forall i, j :: 0 <= i < j < |qs| ==> qs[i].id != qs[j].id
  }

  /** Every list is non-empty, holds only its own type, has distinct ids and well-formed questions. */
  predicate ValidList(qs: seq<Question>, t: QuestionType) {
    |qs| > 0 && DistinctIds(qs) &&
    forall i :: 0 <= i < |qs| ==> qs[i].Type() == t && WellFormed(qs[i])
  }

  predicate ValidBank(b: Bank) {
    forall t: QuestionType :: ValidList(b.Questions(t), t)
  }

  lemma MultipleChoiceListIsValid()
    ensures ValidList(QuestionData.multipleChoice, MultipleChoice)
  {
    var mc := QuestionData.multipleChoice;
    assert mc[0].id[2] != mc[1].id[2] && mc[0].id[2] != mc[2].id[2] && mc[1].id[2] != mc[2].id[2];
  }

  lemma HotspotListIsValid()
    ensures ValidList(QuestionData.hotspot, Hotspot)
  {
    var q := QuestionData.hotspot[0];
    var rs := q.hotspots;
    assert |rs| == 4 && rs[0].correct && !rs[1].correct && !rs[2].correct && !rs[3].correct;
    assert forall j :: 0 <= j < |rs| && rs[j].correct ==> j == 0;
    assert ExactlyOneCorrect(rs);
    assert q.Type() == Hotspot && WellFormed(q);
  }

  lemma DragDropListIsValid()
    ensures ValidList(QuestionData.dragDrop, DragDrop)
  {
  }

  lemma QuestionDataIsValid()
    ensures ValidBank(QuestionData)
  {
    MultipleChoiceListIsValid();
    HotspotListIsValid();
    DragDropListIsValid();
    forall t: QuestionType ensures ValidList(QuestionData.Questions(t), t) {
      match t
      case MultipleChoice =>
      case Hotspot =>
      case DragDrop =>
    }
  }

  /** `questionData[type][index]`: undefined (None) past the end of the list. */
  function GetCurrentQuestion(t: QuestionType, index: nat): (q: Option<Question>)
    ensures q.Some? <==> index < |QuestionData.Questions(t)|
    ensures q.Some? ==> q.value == QuestionData.Questions(t)[index]
    ensures q.Some? ==> q.value.Type() == t && WellFormed(q.value)
  {
    QuestionDataIsValid();
    var qs := QuestionData.Questions(t);
    if index < |qs| then Some(qs[index]) else None
  }

  /** `questions.find(q => q.id === id)`. */
  function FindById(qs: seq<Question>, id: string): Option<Question> {
    Find(qs, (q: Question) => q.id == id)
  }

  /** With distinct ids, looking a question up by its own id finds that question. */
  lemma {:induction false} FindByIdRoundTrip(qs: seq<Question>, i: nat)
    requires DistinctIds(qs) && i < |qs|
    ensures FindById(qs, qs[i].id) == Some(qs[i])
  {
    if i > 0 {
      assert qs[0].id != qs[i].id;
      assert qs[1..][i - 1] == qs[i];
      FindByIdRoundTrip(qs[1..], i - 1);
    }
  }
}
