/**
  Question navigation (js/templates.js): the two module-level variables
  `currentQuestionType` and `currentQuestionIndex`, reassigned by the type buttons
  and by the "new question" button, over the constant question bank.
 */
module Session {
  import opened Wrappers
  import opened QuestionBank

  /** One "new question" step: `(index + 1) % length`. */
  function NextIndex(index: nat, length: nat): (r: nat)
    requires length > 0
    ensures r < length
    ensures index + 1 < length ==> r == index + 1
    ensures index + 1 == length ==> r == 0
  {
    (index + 1) % length
  }

  /** `steps` consecutive "new question" steps from `index`. */
  function Advance(index: nat, length: nat, steps: nat): nat
    requires length > 0
  {
    if steps == 0 then index else NextIndex(Advance(index, length, steps - 1), length)
  }

  lemma MultiplePositive(x: int, n: int)
    requires x >= 1 && n > 0
    ensures x * n >= n
  {}

  lemma MultipleNegative(x: int, n: int)
    requires x <= -1 && n > 0
    ensures x * n <= -n
  {}

  /** Euclidean remainders are unique. */
  lemma ModUnique(a: int, n: int, q: int, r: int)
    requires n > 0 && 0 <= r < n && a == q * n + r
    ensures a % n == r
  {
    var q', r' := a / n, a % n;
    assert a == q' * n + r';
    assert (q - q') * n == r' - r;
    if q - q' >= 1 {
      MultiplePositive(q - q', n);
    } else if q - q' <= -1 {
      MultipleNegative(q - q', n);
    }
  }

  lemma ModSuccessor(a: nat, n: nat)
    requires n > 0
    ensures (a % n + 1) % n == (a + 1) % n
  {
    var q, r := a / n, a % n;
    assert a == q * n + r;
    if r + 1 < n {
      ModUnique(a + 1, n, q, r + 1);
      ModUnique(r + 1, n, 0, r + 1);
    } else {
      ModUnique(a + 1, n, q + 1, 0);
      ModUnique(r + 1, n, 1, 0);
    }
  }

  /** Stepping wraps modulo the list length. */
  lemma {:induction false} AdvanceWraps(index: nat, length: nat, steps: nat)
    requires index < length
    ensures Advance(index, length, steps) == (index + steps) % length
  {
    if steps > 0 {
      AdvanceWraps(index, length, steps - 1);
      ModSuccessor(index + steps - 1, length);
    }
  }

  /** As many steps as the list is long come back to the starting question. */
  lemma FullCycleReturns(index: nat, length: nat)
    requires index < length
    ensures Advance(index, length, length) == index
    ensures forall k :: 0 < k < length ==> Advance(index, length, k) != index
  {
    AdvanceWraps(index, length, length);
    ModUnique(index + length, length, 1, index);
    forall k | 0 < k < length ensures Advance(index, length, k) != index {
      AdvanceWraps(index, length, k);
      if index + k < length {
        ModUnique(index + k, length, 0, index + k);
      } else {
        ModUnique(index + k, length, 1, index + k - length);
      }
    }
  }

  /** The three multiple-choice questions: three steps from the first return to it. */
  lemma MultipleChoiceCycle()
    ensures |QuestionData.Questions(MultipleChoice)| == 3
    ensures Advance(0, 3, 1) == 1 && Advance(0, 3, 2) == 2 && Advance(0, 3, 3) == 0
  {
    FullCycleReturns(0, 3);
  }

  /** The navigation state; the bank it indexes is the constant `QuestionData`. */
  class QuizSession {
    var currentQuestionType: QuestionType
    var currentQuestionIndex: nat

    /** The index names a question of the active list. */
    ghost predicate Valid()
      reads this
    {
      currentQuestionIndex < |QuestionData.Questions(currentQuestionType)|
    }

    /** The initial state: the first multiple-choice question. */
    constructor ()
      ensures currentQuestionType == MultipleChoice && currentQuestionIndex == 0
      ensures Valid()
    {
      QuestionDataIsValid();
      currentQuestionType := MultipleChoice;
      currentQuestionIndex := 0;
    }

    /** A type button: switch the active type and go back to its first question. */
    method SetActiveQuestionType(t: QuestionType)
      modifies this
      ensures currentQuestionType == t && currentQuestionIndex == 0
      ensures Valid()
    {
      QuestionDataIsValid();
      currentQuestionType := t;
      currentQuestionIndex := 0;
    }

    /** The "new question" button: advance within the active type, wrapping at the end. */
    method NewQuestion()
      modifies this`currentQuestionIndex
      ensures currentQuestionIndex == NextIndex(old(currentQuestionIndex), |QuestionData.Questions(currentQuestionType)|)
      ensures Valid()
    {
      QuestionDataIsValid();
      currentQuestionIndex := (currentQuestionIndex + 1) % |QuestionData.Questions(currentQuestionType)|;
    }

    /** `getCurrentQuestion(currentQuestionType, currentQuestionIndex)`, as rendering uses it. */
    function CurrentQuestion(): (q: Question)
      reads this
      requires Valid()
      ensures GetCurrentQuestion(currentQuestionType, currentQuestionIndex) == Some(q)
      ensures q.Type() == currentQuestionType && WellFormed(q)
    {
      GetCurrentQuestion(currentQuestionType, currentQuestionIndex).value
    }
  }
}
