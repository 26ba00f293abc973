/**
 * A session's progress through its questions (backend/quiz/views.py):
 * the question `current_question` picks, the counts it reports, the lookup
 * `submit_answer` performs and the effect of one answer on a question.
 */
module Progress {
  import opened Optional
  import opened Models

  /**
   * `questions.filter(is_answered=False).order_by('question_order').first()`:
   * the position of an unanswered question with the smallest order, or None
   * when every question is answered.
   */
  function FirstUnanswered(qs: seq<SessionQuestion>): (r: Option<nat>)
    ensures r.Some? ==> r.value < |qs| && !qs[r.value].isAnswered
    ensures r.Some? ==> forall k :: 0 <= k < |qs| && !qs[k].isAnswered ==>
      qs[r.value].questionOrder <= qs[k].questionOrder
    ensures r.None? <==> forall k :: 0 <= k < |qs| ==> qs[k].isAnswered
  {
    if qs == [] then None
    else
      var rest := FirstUnanswered(qs[1..]);
      if qs[0].isAnswered then
        (match rest case Some(k) => Some(k + 1) case None => None)
      else
        match rest
        case Some(k) => if qs[k + 1].questionOrder < qs[0].questionOrder then Some(k + 1) else Some(0)
        case None => Some(0)
  }

  /** `questions.filter(is_answered=True).count()` */
  function CountAnswered(qs: seq<SessionQuestion>): (r: nat)
    ensures r <= |qs|
    ensures r == |qs| <==> forall k :: 0 <= k < |qs| ==> qs[k].isAnswered
    ensures r == 0 <==> forall k :: 0 <= k < |qs| ==> !qs[k].isAnswered
  {
    if qs == [] then 0
    else (if qs[0].isAnswered then 1 else 0) + CountAnswered(qs[1..])
  }

  /** The "all answered" message is given exactly when every question counts as answered. */
  lemma AllAnsweredIffCountComplete(qs: seq<SessionQuestion>)
    ensures FirstUnanswered(qs).None? <==> CountAnswered(qs) == |qs|
  {
  }

  /** `session.questions.get(id=question_id)`: the position of the question with that id. */
  function FindQuestion(qs: seq<SessionQuestion>, questionId: nat): (r: Option<nat>)
    ensures r.Some? ==> r.value < |qs| && qs[r.value].id == questionId
    ensures r.None? <==> forall k :: 0 <= k < |qs| ==> qs[k].id != questionId
  {
    if qs == [] then None
    else if qs[0].id == questionId then Some(0)
    else match FindQuestion(qs[1..], questionId)
      case Some(k) => Some(k + 1)
      case None => None
  }

  /**
   * One submission on a question: the attempt is always counted; only a
   * correct answer marks the question answered and correct.
   */
  function AnswerQuestion(q: SessionQuestion, isCorrect: bool): (r: SessionQuestion)
    ensures r.id == q.id && r.vitalPoint == q.vitalPoint && r.questionOrder == q.questionOrder
    ensures r.attemptCount == q.attemptCount + 1
    ensures isCorrect ==> r.isAnswered && r.isCorrect
    ensures !isCorrect ==> r.isAnswered == q.isAnswered && r.isCorrect == q.isCorrect
  {
    if isCorrect then q.(attemptCount := q.attemptCount + 1, isAnswered := true, isCorrect := true)
    else q.(attemptCount := q.attemptCount + 1)
  }

  /** The session's questions after answering the one at position `i`. */
  function AnswerAt(qs: seq<SessionQuestion>, i: nat, isCorrect: bool): seq<SessionQuestion>
    requires i < |qs|
  {
    qs[i := AnswerQuestion(qs[i], isCorrect)]
  }

  /** The progress queries only look at the answered flags and the orders. */
  lemma {:induction false} ProgressDependsOnFlags(a: seq<SessionQuestion>, b: seq<SessionQuestion>)
    requires |a| == |b|
    requires forall k :: 0 <= k < |a| ==> a[k].isAnswered == b[k].isAnswered && a[k].questionOrder == b[k].questionOrder
    ensures FirstUnanswered(a) == FirstUnanswered(b)
    ensures CountAnswered(a) == CountAnswered(b)
  {
    if a != [] {
      ProgressDependsOnFlags(a[1..], b[1..]);
    }
  }

  /**
   * A wrong answer leaves the question unanswered: the same question stays
   * current and the answered count does not move. Ids, items and orders of
   * all questions are kept.
   */
  lemma WrongAnswerKeepsProgress(qs: seq<SessionQuestion>, i: nat)
    requires i < |qs|
    ensures FirstUnanswered(AnswerAt(qs, i, false)) == FirstUnanswered(qs)
    ensures CountAnswered(AnswerAt(qs, i, false)) == CountAnswered(qs)
  {
    ProgressDependsOnFlags(AnswerAt(qs, i, false), qs);
  }

  /** A correct answer adds one to the answered count unless the question was already answered. */
  lemma {:induction false} CorrectAnswerCounts(qs: seq<SessionQuestion>, i: nat)
    requires i < |qs|
    ensures CountAnswered(AnswerAt(qs, i, true)) == CountAnswered(qs) + (if qs[i].isAnswered then 0 else 1)
  {
    if i > 0 {
      CorrectAnswerCounts(qs[1..], i - 1);
      assert AnswerAt(qs, i, true)[1..] == AnswerAt(qs[1..], i - 1, true);
    }
  }

  /**
   * With unique orders, a correct answer to the current question moves on:
   * afterwards either all questions are answered or the current question has
   * a larger order.
   */
  lemma CorrectAnswerAdvances(qs: seq<SessionQuestion>, i: nat)
    requires OrdersUnique(qs) && FirstUnanswered(qs) == Some(i)
    ensures FirstUnanswered(AnswerAt(qs, i, true)).Some? ==>
      qs[FirstUnanswered(AnswerAt(qs, i, true)).value].questionOrder > qs[i].questionOrder
  {
    var a := AnswerAt(qs, i, true);
    var f := FirstUnanswered(a);
    if f.Some? {
      var j := f.value;
      assert j != i;
      assert a[j] == qs[j];
      assert qs[j].questionOrder != qs[i].questionOrder;
    }
  }
}
