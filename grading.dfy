/**
  What grading and "show answer" do to the rendered question (js/main.js), stated
  as functions over the abstract DOM: each option, hotspot and drop target carries a
  set of marks (its `selected`, `correct`, `incorrect` CSS classes). The methods of
  `Quiz.QuizPage` update arrays in place and are proved equal to these functions.
 */
module Grading {
  import opened Wrappers
  import opened QuestionBank

  datatype Mark = Selected | Correct | Incorrect

  /** A `.hotspot` element: its `data-correct` and `data-feedback` attributes and its marks. */
  datatype HotspotElement = HotspotElement(correct: bool, feedback: string, marks: set<Mark>)

  /** A `.dropped-item` element inside a drop target: `data-id` and text. */
  datatype DroppedItem = DroppedItem(id: nat, text: string)

  /** A `.drop-target` element: the item it holds, its `data-match`, its marks. */
  datatype DropTarget = DropTarget(item: Option<DroppedItem>, matchIndex: nat, marks: set<Mark>)

  /** A `.drag-item` element: `data-id` and text. */
  datatype DragItem = DragItem(id: nat, text: string)

  // ---------------------------------------------------------------- multiple choice

  /** Clicking option `i`: only it carries `selected` afterwards. */
  function SelectedChoices(ms: seq<set<Mark>>, i: nat): (r: seq<set<Mark>>)
    ensures |r| == |ms|
  {
    seq(|ms|, k requires 0 <= k < |ms| => if k == i then ms[k] + {Selected} else ms[k] - {Selected})
  }

  lemma SelectedChoicesMarks(ms: seq<set<Mark>>, i: nat, k: nat)
    requires k < |ms|
    ensures Selected in SelectedChoices(ms, i)[k] <==> k == i
    ensures SelectedChoices(ms, i)[k] - {Selected} == ms[k] - {Selected}
  {}

  function CheckedChoice(m: set<Mark>, index: nat, selected: nat, correct: nat): set<Mark> {
    if index == correct then m + {Correct}
    else if index == selected && selected != correct then m + {Incorrect}
    else m
  }

  /** The marks after grading with radio `selected` checked and answer key `correct`. */
  function CheckedChoices(ms: seq<set<Mark>>, selected: nat, correct: nat): (r: seq<set<Mark>>)
    ensures |r| == |ms|
  {
    seq(|ms|, k requires 0 <= k < |ms| => CheckedChoice(ms[k], k, selected, correct))
  }

  /**
    Grading marks the answer key's option correct, marks the selected option
    incorrect only when it is not the key, gives other options nothing, removes nothing.
   */
  lemma CheckedChoicesMarks(ms: seq<set<Mark>>, selected: nat, correct: nat, k: nat)
    requires k < |ms|
    ensures Correct in CheckedChoices(ms, selected, correct)[k] <==> k == correct || Correct in ms[k]
    ensures Incorrect in CheckedChoices(ms, selected, correct)[k] <==>
      (k == selected && selected != correct) || Incorrect in ms[k]
    ensures Selected in CheckedChoices(ms, selected, correct)[k] <==> Selected in ms[k]
    ensures k != correct && k != selected ==> CheckedChoices(ms, selected, correct)[k] == ms[k]
    ensures ms[k] <= CheckedChoices(ms, selected, correct)[k]
  {}

  /** Showing the answer: every mark is cleared and only the key's option is marked correct. */
  function RevealedChoices(ms: seq<set<Mark>>, correct: nat): (r: seq<set<Mark>>)
    ensures |r| == |ms|
  {
    seq(|ms|, k requires 0 <= k < |ms| =>
      (ms[k] - {Selected, Correct, Incorrect}) + (if k == correct then {Correct} else {}))
  }

  lemma RevealedChoicesMarks(ms: seq<set<Mark>>, correct: nat, k: nat)
    requires k < |ms|
    ensures RevealedChoices(ms, correct)[k] == if k == correct then {Correct} else {}
  {
    var m := RevealedChoices(ms, correct)[k];
    forall x: Mark ensures x in m <==> (k == correct && x == Correct) {
      match x
      case Selected =>
      case Correct =>
      case Incorrect =>
    }
  }

  // ---------------------------------------------------------------- hotspots

  /** `querySelector('.hotspot.selected')`: the first hotspot carrying `selected`. */
  function FirstSelected(hs: seq<HotspotElement>): (r: Option<nat>)
    ensures r.None? <==> forall i :: 0 <= i < |hs| ==> Selected !in hs[i].marks
    ensures r.Some? ==> r.value < |hs| && Selected in hs[r.value].marks
    ensures r.Some? ==> forall j :: 0 <= j < r.value ==> Selected !in hs[j].marks
  {
    FindIndex(hs, (h: HotspotElement) => Selected in h.marks)
  }

  /** Clicking hotspot `i`: only it carries `selected` afterwards. */
  function SelectedHotspots(hs: seq<HotspotElement>, i: nat): (r: seq<HotspotElement>)
    ensures |r| == |hs|
  {
    seq(|hs|, k requires 0 <= k < |hs| =>
      hs[k].(marks := if k == i then hs[k].marks + {Selected} else hs[k].marks - {Selected}))
  }

  /** After a click on region `i`, grading reads exactly region `i`'s flag. */
  lemma SelectThenGradeHotspot(hs: seq<HotspotElement>, i: nat)
    requires i < |hs|
    ensures FirstSelected(SelectedHotspots(hs, i)) == Some(i)
    ensures HotspotVerdict(SelectedHotspots(hs, i)) == hs[i].correct
  {
    var r := SelectedHotspots(hs, i);
    assert Selected in r[i].marks;
  }

  /** The result of grading a hotspot question: the flag of the selected region, false with none. */
  function HotspotVerdict(hs: seq<HotspotElement>): bool {
    match FirstSelected(hs)
    case None => false
    case Some(s) => hs[s].correct
  }

  function CheckedHotspot(h: HotspotElement, index: nat, selected: nat, isCorrect: bool): HotspotElement {
    if h.correct then h.(marks := h.marks + {Correct})
    else if index == selected && !isCorrect then h.(marks := h.marks + {Incorrect})
    else h
  }

  /** The hotspots after grading with region `selected` chosen. */
  function CheckedHotspots(hs: seq<HotspotElement>, selected: nat): (r: seq<HotspotElement>)
    requires selected < |hs|
    ensures |r| == |hs|
  {
    seq(|hs|, k requires 0 <= k < |hs| => CheckedHotspot(hs[k], k, selected, hs[selected].correct))
  }

  /** The hotspots after grading: untouched when nothing is selected. */
  function HotspotsAfterCheck(hs: seq<HotspotElement>): (r: seq<HotspotElement>)
    ensures |r| == |hs|
  {
    match FirstSelected(hs)
    case None => hs
    case Some(s) => CheckedHotspots(hs, s)
  }

  /**
    Grading marks every region flagged correct, marks the selected region incorrect
    only when its flag is false, and leaves flags, feedback and existing marks alone.
   */
  lemma CheckedHotspotsMarks(hs: seq<HotspotElement>, selected: nat, k: nat)
    requires selected < |hs| && k < |hs|
    ensures CheckedHotspots(hs, selected)[k].correct == hs[k].correct
    ensures CheckedHotspots(hs, selected)[k].feedback == hs[k].feedback
    ensures Correct in CheckedHotspots(hs, selected)[k].marks <==> hs[k].correct || Correct in hs[k].marks
    ensures Incorrect in CheckedHotspots(hs, selected)[k].marks <==>
      (k == selected && !hs[selected].correct) || Incorrect in hs[k].marks
    ensures Selected in CheckedHotspots(hs, selected)[k].marks <==> Selected in hs[k].marks
    ensures hs[k].marks <= CheckedHotspots(hs, selected)[k].marks
  {}

  function RevealedHotspot(h: HotspotElement): HotspotElement {
    h.(marks := (h.marks - {Selected, Correct, Incorrect}) + (if h.correct then {Correct, Selected} else {}))
  }

  /** Showing the answer for a hotspot question. */
  function RevealedHotspots(hs: seq<HotspotElement>): (r: seq<HotspotElement>)
    ensures |r| == |hs|
  {
    seq(|hs|, k requires 0 <= k < |hs| => RevealedHotspot(hs[k]))
  }

  /**
    After "show answer" exactly the correct regions are selected and marked correct;
    when some region is correct, grading then picks the first of them and succeeds.
   */
  lemma RevealedHotspotsMarks(hs: seq<HotspotElement>)
    ensures forall k :: 0 <= k < |hs| ==>
      RevealedHotspots(hs)[k].marks == (if hs[k].correct then {Correct, Selected} else {})
    ensures (exists k :: 0 <= k < |hs| && hs[k].correct) ==> HotspotVerdict(RevealedHotspots(hs))
    ensures (forall k :: 0 <= k < |hs| ==> !hs[k].correct) ==> !HotspotVerdict(RevealedHotspots(hs))
  {
    var r := RevealedHotspots(hs);
    forall k | 0 <= k < |hs|
      ensures r[k].marks == (if hs[k].correct then {Correct, Selected} else {})
    {
      forall x: Mark ensures x in r[k].marks <==> (hs[k].correct && x in {Correct, Selected}) {
        match x
        case Selected =>
        case Correct =>
        case Incorrect =>
      }
    }
    if exists k :: 0 <= k < |hs| && hs[k].correct {
      var k :| 0 <= k < |hs| && hs[k].correct;
      assert Selected in r[k].marks;
    }
  }

  // ---------------------------------------------------------------- drag and drop

  /** A target holds an item whose id is its `data-match`. */
  predicate IsMatched(t: DropTarget) {
    t.item.Some? && t.item.value.id == t.matchIndex
  }

  predicate AllMatched(ts: seq<DropTarget>) {
    forall i :: 0 <= i < |ts| ==> IsMatched(ts[i])
  }

  /** `correctCount` after grading the targets in order. */
  function CorrectCount(ts: seq<DropTarget>): (n: nat)
    ensures n <= |ts|
    ensures n == |ts| ==> |ts| == 0 || IsMatched(ts[|ts| - 1])
  {
    if ts == [] then 0
    else CorrectCount(ts[..|ts| - 1]) + (if IsMatched(ts[|ts| - 1]) then 1 else 0)
  }

  /**
    All or nothing: the count reaches the number of targets exactly when every
    target holds its matching item; one empty or wrong target makes it fall short.
   */
  lemma {:induction false} AllOrNothing(ts: seq<DropTarget>)
    ensures CorrectCount(ts) == |ts| <==> AllMatched(ts)
  {
    if ts != [] {
      var init := ts[..|ts| - 1];
      AllOrNothing(init);
      assert forall i :: 0 <= i < |init| ==> init[i] == ts[i];
      if AllMatched(ts) {
        assert AllMatched(init);
      }
    }
  }

  function CheckedTarget(t: DropTarget): DropTarget {
    match t.item
    case None => t
    case Some(d) =>
      if d.id == t.matchIndex then t.(marks := t.marks + {Correct})
      else t.(marks := t.marks + {Incorrect})
  }

  /** The targets after grading. */
  function CheckedTargets(ts: seq<DropTarget>): (r: seq<DropTarget>)
    ensures |r| == |ts|
  {
    seq(|ts|, k requires 0 <= k < |ts| => CheckedTarget(ts[k]))
  }

  /**
    Grading marks each filled target on its own: correct when its item matches,
    incorrect otherwise; an empty target is left as it was. Items never move.
   */
  lemma CheckedTargetsMarks(ts: seq<DropTarget>, k: nat)
    requires k < |ts|
    ensures CheckedTargets(ts)[k].item == ts[k].item
    ensures CheckedTargets(ts)[k].matchIndex == ts[k].matchIndex
    ensures ts[k].item.None? ==> CheckedTargets(ts)[k] == ts[k]
    ensures ts[k].item.Some? ==>
      (Correct in CheckedTargets(ts)[k].marks <==> IsMatched(ts[k]) || Correct in ts[k].marks)
    ensures ts[k].item.Some? ==>
      (Incorrect in CheckedTargets(ts)[k].marks <==> !IsMatched(ts[k]) || Incorrect in ts[k].marks)
    ensures ts[k].marks <= CheckedTargets(ts)[k].marks
  {}

  /** Grading one more time reads the same verdict: grading moves no items. */
  lemma CheckingKeepsVerdict(ts: seq<DropTarget>)
    ensures AllMatched(CheckedTargets(ts)) <==> AllMatched(ts)
    ensures CorrectCount(CheckedTargets(ts)) == CorrectCount(ts)
  {
    AllOrNothing(ts);
    AllOrNothing(CheckedTargets(ts));
    CorrectCountDependsOnItems(ts, CheckedTargets(ts));
  }

  lemma {:induction false} CorrectCountDependsOnItems(ts: seq<DropTarget>, us: seq<DropTarget>)
    requires |ts| == |us|
    requires forall k :: 0 <= k < |ts| ==> ts[k].item == us[k].item && ts[k].matchIndex == us[k].matchIndex
    ensures CorrectCount(ts) == CorrectCount(us)
  {
    if ts != [] {
      CorrectCountDependsOnItems(ts[..|ts| - 1], us[..|us| - 1]);
    }
  }

  /** A target after "show answer": it holds the matching draggable, marked correct only. */
  function RevealedTarget(t: DropTarget, draggables: seq<Draggable>): DropTarget
    requires t.matchIndex < |draggables|
  {
    DropTarget(Some(DroppedItem(t.matchIndex, draggables[t.matchIndex].text)), t.matchIndex,
               (t.marks - {Correct, Incorrect}) + {Correct})
  }

  /** `question.draggables[match]` exists for every target. */
  predicate MatchesInRange(ts: seq<DropTarget>, draggables: seq<Draggable>) {
    forall k :: 0 <= k < |ts| ==> ts[k].matchIndex < |draggables|
  }

  function RevealedTargets(ts: seq<DropTarget>, draggables: seq<Draggable>): (r: seq<DropTarget>)
    requires MatchesInRange(ts, draggables)
    ensures |r| == |ts|
  {
    seq(|ts|, k requires 0 <= k < |ts| => RevealedTarget(ts[k], draggables))
  }

  /**
    After "show answer" every target holds exactly the draggable its `match` names,
    is marked correct and not incorrect, whatever it held before; grading would pass.
   */
  lemma RevealedTargetsMatch(ts: seq<DropTarget>, draggables: seq<Draggable>)
    requires MatchesInRange(ts, draggables)
    ensures forall k :: 0 <= k < |ts| ==>
      RevealedTargets(ts, draggables)[k].item == Some(DroppedItem(ts[k].matchIndex, draggables[ts[k].matchIndex].text))
    ensures forall k :: 0 <= k < |ts| ==>
      Correct in RevealedTargets(ts, draggables)[k].marks && Incorrect !in RevealedTargets(ts, draggables)[k].marks
    ensures AllMatched(RevealedTargets(ts, draggables))
    ensures CorrectCount(RevealedTargets(ts, draggables)) == |ts|
  {
    AllOrNothing(RevealedTargets(ts, draggables));
  }

  /** Showing the answer twice is showing it once. */
  lemma RevealIsIdempotent(ts: seq<DropTarget>, draggables: seq<Draggable>)
    requires MatchesInRange(ts, draggables)
    ensures MatchesInRange(RevealedTargets(ts, draggables), draggables)
    ensures RevealedTargets(RevealedTargets(ts, draggables), draggables) == RevealedTargets(ts, draggables)
  {
    var once := RevealedTargets(ts, draggables);
    var twice := RevealedTargets(once, draggables);
    forall k | 0 <= k < |ts| ensures twice[k] == once[k] {
      assert (once[k].marks - {Correct, Incorrect}) + {Correct} == once[k].marks;
    }
  }

  /** `querySelector('.drag-item[data-id=...]')`: the first drag item with that id. */
  function FindDragItem(items: seq<DragItem>, id: nat): Option<DragItem> {
    Find(items, (d: DragItem) => d.id == id)
  }

  /**
    What a drop leaves in the target: a copy of the dragged item, or nothing when no
    drag item has the id (the old item is removed before the handler fails).
   */
  function DroppedCopy(items: seq<DragItem>, id: nat): Option<DroppedItem> {
    match FindDragItem(items, id)
    case None => None
    case Some(d) => Some(DroppedItem(id, d.text))
  }

  /** A drop of an existing item makes the target match exactly when the id is its `match`. */
  lemma DropDecidesMatch(t: DropTarget, items: seq<DragItem>, id: nat)
    requires exists i :: 0 <= i < |items| && items[i].id == id
    ensures IsMatched(t.(item := DroppedCopy(items, id))) <==> id == t.matchIndex
  {
  }
}
