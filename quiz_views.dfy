/**
 * The quiz session endpoints of QuizSessionViewSet (backend/quiz/views.py)
 * over the app's tables. The catalog is read-only here; the history table,
 * the sessions with their questions and the auto-increment counters change.
 */
module QuizViews {
  import opened Optional
  import opened SeqFacts
  import opened Models
  import opened Shuffle
  import opened HistoryQueries
  import opened Selection
  import opened Progress

  /** The response of `current_question`. */
  datatype CurrentQuestionResult =
    | CurrentSessionNotFound
    | AllAnswered
    | Current(
        questionId: nat,
        questionOrder: nat,
        imageFile: string,
        number: string,
        choices: seq<VitalPoint>,
        totalQuestions: nat,
        answeredCount: nat)

  /** The response of `submit_answer`. */
  datatype SubmitResult =
    | SubmitSessionNotFound
    | QuestionNotFound
    | Submitted(isCorrect: bool, correctAnswer: string)

  /** One session's questions: ordered 1..N in list order, items from the catalog, distinct allocated ids. */
  ghost predicate QuestionsValid(catalog: seq<VitalPoint>, qs: seq<SessionQuestion>, nextQuestionId: nat) {
    && (forall k :: 0 <= k < |qs| ==> qs[k].questionOrder == k + 1)
    && (forall k :: 0 <= k < |qs| ==> qs[k].vitalPoint in catalog && qs[k].id < nextQuestionId)
    && (forall i, j :: 0 <= i < j < |qs| ==> qs[i].id != qs[j].id)
  }

  /** Every session is stored under its own key, below the next key, with valid questions. */
  ghost predicate SessionsValid(catalog: seq<VitalPoint>, sessions: map<nat, QuizSession>, nextSessionId: nat, nextQuestionId: nat) {
    forall sid | sid in sessions ::
      sessions[sid].id == sid && sid < nextSessionId
      && QuestionsValid(catalog, sessions[sid].questions, nextQuestionId)
  }

  /**
   * `all_vital_points` as `start_new_session` builds it: the weak items
   * followed by the rest of the catalog shuffled in place, or the whole
   * catalog shuffled in place.
   */
  method SessionItems(catalog: seq<VitalPoint>, hs: seq<LearningHistory>, weakPointsMode: bool, draws: seq<nat>)
    returns (items: seq<VitalPoint>)
    ensures items == SelectItems(catalog, hs, weakPointsMode, draws)
  {
    if weakPointsMode {
      var weakPoints := WeakItems(hs);
      var remaining := ShuffledCopy(ExcludeIds(catalog, IdsOf(weakPoints)), draws);
      items := weakPoints + remaining;
    } else {
      items := ShuffledCopy(catalog, draws);
    }
  }

  /** The constraints the tables keep between requests. */
  ghost predicate TablesValid(catalog: seq<VitalPoint>, histories: seq<LearningHistory>, sessions: map<nat, QuizSession>,
                              testResults: seq<TestResult>, nextSessionId: nat, nextQuestionId: nat) {
    && CatalogIdsDistinct(catalog)
    && HistoriesOver(histories, catalog)
    && OneResultPerSession(testResults)
    && SessionsValid(catalog, sessions, nextSessionId, nextQuestionId)
  }

  /** The question rows of a new session, created one per item with consecutive ids. */
  method CreateQuestions(firstId: nat, items: seq<VitalPoint>) returns (questions: seq<SessionQuestion>)
    ensures questions == NumberQuestions(firstId, items)
  {
    questions := [];
    var nextId := firstId;
    for k := 0 to |items|
      invariant nextId == firstId + k
      invariant questions == NumberQuestions(firstId, items[..k])
    {
      assert items[..k + 1][..k] == items[..k];
      questions := questions + [NewQuestion(nextId, items[k], k + 1)];
      nextId := nextId + 1;
    }
    assert items[..|items|] == items;
  }

  /** The questions of a new session are valid once the ids they took are allocated. */
  lemma NewQuestionsValid(catalog: seq<VitalPoint>, hs: seq<LearningHistory>, firstId: nat,
                          weakPointsMode: bool, draws: seq<nat>)
    requires CatalogIdsDistinct(catalog) && HistoriesOver(hs, catalog)
    ensures |SelectItems(catalog, hs, weakPointsMode, draws)| == |catalog|
    ensures QuestionsValid(catalog, NumberQuestions(firstId, SelectItems(catalog, hs, weakPointsMode, draws)), firstId + |catalog|)
  {
    var items := SelectItems(catalog, hs, weakPointsMode, draws);
    SelectItemsInCatalog(catalog, hs, weakPointsMode, draws);
    NumberQuestionsProperties(firstId, items);
  }

  /** Storing a valid session under the next key keeps the sessions valid. */
  lemma AddSessionKeepsValid(catalog: seq<VitalPoint>, sessions: map<nat, QuizSession>,
                             nextSessionId: nat, nextQuestionId: nat, s: QuizSession, newNextQuestionId: nat)
    requires SessionsValid(catalog, sessions, nextSessionId, nextQuestionId)
    requires s.id == nextSessionId && nextQuestionId <= newNextQuestionId
    requires QuestionsValid(catalog, s.questions, newNextQuestionId)
    ensures nextSessionId !in sessions
    ensures SessionsValid(catalog, sessions[nextSessionId := s], nextSessionId + 1, newNextQuestionId)
  {
  }

  /**
   * The table writes of `start_new_session`: a session row under the next
   * key, then one question row per selected item.
   */
  method CreateSession(catalog: seq<VitalPoint>, hs: seq<LearningHistory>,
                       sessions: map<nat, QuizSession>, testResults: seq<TestResult>,
                       nextSessionId: nat, nextQuestionId: nat,
                       weakPointsMode: bool, draws: seq<nat>, now: Time)
    returns (sessionId: nat, sessions': map<nat, QuizSession>, nextQuestionId': nat)
    requires TablesValid(catalog, hs, sessions, testResults, nextSessionId, nextQuestionId)
    ensures sessionId == nextSessionId && sessionId !in sessions
    ensures sessions' == sessions[sessionId := StartedSession(catalog, hs, sessionId, nextQuestionId, weakPointsMode, draws, now)]
    ensures nextQuestionId' == nextQuestionId + |catalog|
    ensures TablesValid(catalog, hs, sessions', testResults, nextSessionId + 1, nextQuestionId')
  {
    StartedSessionKeepsValid(catalog, hs, sessions, testResults, nextSessionId, nextQuestionId, weakPointsMode, draws, now);
    sessionId := nextSessionId;
    var session := NewSession(sessionId, now);
    var items := SessionItems(catalog, hs, weakPointsMode, draws);
    var questions := CreateQuestions(nextQuestionId, items);
    sessions' := sessions[sessionId := session.(questions := questions)];
    nextQuestionId' := nextQuestionId + |items|;
  }

  /** The session `start_new_session` stores. */
  function StartedSession(catalog: seq<VitalPoint>, hs: seq<LearningHistory>, sessionId: nat, firstQuestionId: nat,
                          weakPointsMode: bool, draws: seq<nat>, now: Time): QuizSession {
    NewSession(sessionId, now).(questions := NumberQuestions(firstQuestionId, SelectItems(catalog, hs, weakPointsMode, draws)))
  }

  /**
   * The stored session has the model defaults (active, test mode, no
   * completion time, index 0), is stamped `now`, and its questions are the
   * selected items numbered 1..N, none answered or attempted yet.
   */
  lemma StartedSessionFresh(catalog: seq<VitalPoint>, hs: seq<LearningHistory>, sessionId: nat, firstQuestionId: nat,
                            weakPointsMode: bool, draws: seq<nat>, now: Time)
    ensures var s := StartedSession(catalog, hs, sessionId, firstQuestionId, weakPointsMode, draws, now);
      var items := SelectItems(catalog, hs, weakPointsMode, draws);
      && s.id == sessionId && s.status == Active && s.mode == Test
      && s.startedAt == now && s.completedAt.None? && s.currentQuestionIndex == 0
      && |s.questions| == |items|
      && (forall k | 0 <= k < |items| :: s.questions[k].vitalPoint == items[k] && s.questions[k].questionOrder == k + 1)
      && (forall q | q in s.questions :: !q.isAnswered && !q.isCorrect && q.attemptCount == 0)
      && OrdersUnique(s.questions)
  {
    NumberQuestionsProperties(firstQuestionId, SelectItems(catalog, hs, weakPointsMode, draws));
  }

  /** Adding a freshly started session under the next key keeps the sessions valid. */
  lemma StartedSessionKeepsValid(catalog: seq<VitalPoint>, hs: seq<LearningHistory>,
                                 sessions: map<nat, QuizSession>, testResults: seq<TestResult>,
                                 nextSessionId: nat, nextQuestionId: nat,
                                 weakPointsMode: bool, draws: seq<nat>, now: Time)
    requires TablesValid(catalog, hs, sessions, testResults, nextSessionId, nextQuestionId)
    ensures nextSessionId !in sessions
    ensures |SelectItems(catalog, hs, weakPointsMode, draws)| == |catalog|
    ensures TablesValid(catalog, hs,
      sessions[nextSessionId := StartedSession(catalog, hs, nextSessionId, nextQuestionId, weakPointsMode, draws, now)],
      testResults, nextSessionId + 1, nextQuestionId + |catalog|)
  {
    NewQuestionsValid(catalog, hs, nextQuestionId, weakPointsMode, draws);
    AddSessionKeepsValid(catalog, sessions, nextSessionId, nextQuestionId,
      StartedSession(catalog, hs, nextSessionId, nextQuestionId, weakPointsMode, draws, now), nextQuestionId + |catalog|);
  }

  /** Replacing a stored session by one with the same key and valid questions keeps the sessions valid. */
  lemma UpdateSessionKeepsValid(catalog: seq<VitalPoint>, sessions: map<nat, QuizSession>,
                                nextSessionId: nat, nextQuestionId: nat, sessionId: nat, s: QuizSession)
    requires SessionsValid(catalog, sessions, nextSessionId, nextQuestionId)
    requires sessionId in sessions && s.id == sessionId
    requires QuestionsValid(catalog, s.questions, nextQuestionId)
    ensures SessionsValid(catalog, sessions[sessionId := s], nextSessionId, nextQuestionId)
  {
  }

  /** Answering a question keeps ids, items and orders, so the questions stay valid. */
  lemma AnswerKeepsQuestionsValid(catalog: seq<VitalPoint>, qs: seq<SessionQuestion>, nextQuestionId: nat, i: nat, isCorrect: bool)
    requires QuestionsValid(catalog, qs, nextQuestionId) && i < |qs|
    ensures QuestionsValid(catalog, AnswerAt(qs, i, isCorrect), nextQuestionId)
  {
    var a := AnswerAt(qs, i, isCorrect);
    assert forall k :: 0 <= k < |qs| ==> a[k].id == qs[k].id && a[k].vitalPoint == qs[k].vitalPoint && a[k].questionOrder == qs[k].questionOrder;
  }

  /** Recording an answer about a catalog item keeps every history row on a catalog item, one per item. */
  lemma RecordAttemptKeepsHistoriesOver(catalog: seq<VitalPoint>, hs: seq<LearningHistory>, vp: VitalPoint, isCorrect: bool, now: Time)
    requires HistoriesOver(hs, catalog) && vp in catalog
    ensures HistoriesOver(RecordAttempt(hs, vp, isCorrect, now), catalog)
  {
    RecordAttemptEffect(hs, vp, isCorrect, now);
    AttemptRowPoint(hs, vp, isCorrect, now);
  }

  /** The tables after a successful `submit_answer` on question `i` of a session. */
  lemma SubmitKeepsValid(catalog: seq<VitalPoint>, hs: seq<LearningHistory>, sessions: map<nat, QuizSession>,
                         testResults: seq<TestResult>, nextSessionId: nat, nextQuestionId: nat,
                         sessionId: nat, i: nat, isCorrect: bool, now: Time)
    requires TablesValid(catalog, hs, sessions, testResults, nextSessionId, nextQuestionId)
    requires sessionId in sessions && i < |sessions[sessionId].questions|
    ensures TablesValid(catalog,
      RecordAttempt(hs, sessions[sessionId].questions[i].vitalPoint, isCorrect, now),
      sessions[sessionId := sessions[sessionId].(questions := AnswerAt(sessions[sessionId].questions, i, isCorrect))],
      testResults, nextSessionId, nextQuestionId)
  {
    var s := sessions[sessionId];
    AnswerKeepsQuestionsValid(catalog, s.questions, nextQuestionId, i, isCorrect);
    UpdateSessionKeepsValid(catalog, sessions, nextSessionId, nextQuestionId, sessionId,
      s.(questions := AnswerAt(s.questions, i, isCorrect)));
    RecordAttemptKeepsHistoriesOver(catalog, hs, s.questions[i].vitalPoint, isCorrect, now);
  }

  /** A status write (and completion time) on a stored session keeps the tables valid. */
  lemma StatusWriteKeepsValid(catalog: seq<VitalPoint>, hs: seq<LearningHistory>, sessions: map<nat, QuizSession>,
                              testResults: seq<TestResult>, nextSessionId: nat, nextQuestionId: nat,
                              sessionId: nat, status: SessionStatus, completedAt: Option<Time>)
    requires TablesValid(catalog, hs, sessions, testResults, nextSessionId, nextQuestionId)
    requires sessionId in sessions
    ensures TablesValid(catalog, hs,
      sessions[sessionId := sessions[sessionId].(status := status, completedAt := completedAt)],
      testResults, nextSessionId, nextQuestionId)
  {
    UpdateSessionKeepsValid(catalog, sessions, nextSessionId, nextQuestionId, sessionId,
      sessions[sessionId].(status := status, completedAt := completedAt));
  }

  /** The response of `current_question` for a session with questions `qs`. */
  function CurrentQuestionOf(catalog: seq<VitalPoint>, qs: seq<SessionQuestion>,
                             otherDraws: seq<nat>, choiceDraws: seq<nat>): CurrentQuestionResult {
    match FirstUnanswered(qs)
    case None => AllAnswered
    case Some(i) =>
      Current(qs[i].id, qs[i].questionOrder, qs[i].vitalPoint.imageFile, qs[i].vitalPoint.number,
              ChoiceList(catalog, qs[i].vitalPoint, otherDraws, choiceDraws), |qs|, CountAnswered(qs))
  }

  /**
   * `current_question` reports "all answered" exactly when no question is
   * left; otherwise it shows an unanswered question of smallest order, its
   * image and number, fewer answered questions than questions, and at most
   * four choices among which only the correct item carries its name.
   */
  lemma CurrentQuestionProperties(catalog: seq<VitalPoint>, qs: seq<SessionQuestion>,
                                  otherDraws: seq<nat>, choiceDraws: seq<nat>)
    requires NoDuplicates(catalog)
    ensures CurrentQuestionOf(catalog, qs, otherDraws, choiceDraws) == AllAnswered <==>
      forall q | q in qs :: q.isAnswered
    ensures CurrentQuestionOf(catalog, qs, otherDraws, choiceDraws).Current? ==>
      var r := CurrentQuestionOf(catalog, qs, otherDraws, choiceDraws);
      var k := FirstUnanswered(qs).value;
      && FirstUnanswered(qs).Some? && !qs[k].isAnswered
        && r.questionId == qs[k].id && r.questionOrder == qs[k].questionOrder
        && r.imageFile == qs[k].vitalPoint.imageFile && r.number == qs[k].vitalPoint.number
        && (forall q | q in qs && !q.isAnswered :: qs[k].questionOrder <= q.questionOrder)
        && |r.choices| == 1 + Min(3, |OtherPoints(catalog, qs[k].vitalPoint)|)
        && (forall c | c in r.choices :: c.name == qs[k].vitalPoint.name <==> c == qs[k].vitalPoint)
        && multiset(r.choices)[qs[k].vitalPoint] == 1
    ensures CurrentQuestionOf(catalog, qs, otherDraws, choiceDraws).Current? ==>
      var r := CurrentQuestionOf(catalog, qs, otherDraws, choiceDraws);
      r.totalQuestions == |qs| && r.answeredCount < r.totalQuestions && |r.choices| <= 4
  {
    assert forall q | q in qs :: exists k :: 0 <= k < |qs| && qs[k] == q;
    match FirstUnanswered(qs)
    case None =>
    case Some(i) =>
      ChoiceListProperties(catalog, qs[i].vitalPoint, otherDraws, choiceDraws);
  }

  class QuizStore {
    /** The VitalPoint table, in id order. */
    const catalog: seq<VitalPoint>
    /** The LearningHistory table, in primary-key order. */
    var histories: seq<LearningHistory>
    /** The QuizSession table by primary key; each session holds its questions. */
    var sessions: map<nat, QuizSession>
    /** The TestResult table; no endpoint writes it. */
    var testResults: seq<TestResult>
    /** The next primary keys the database hands out. */
    var nextSessionId: nat
    var nextQuestionId: nat

    ghost predicate Valid()
      reads this
    {
      TablesValid(catalog, histories, sessions, testResults, nextSessionId, nextQuestionId)
    }

    /** Empty tables over a catalog; the primary keys start at 1. */
    constructor (catalog: seq<VitalPoint>)
      requires CatalogIdsDistinct(catalog)
      ensures Valid()
      ensures this.catalog == catalog && histories == [] && sessions == map[] && testResults == []
      ensures nextSessionId == 1 && nextQuestionId == 1
    {
      this.catalog := catalog;
      histories := [];
      sessions := map[];
      testResults := [];
      nextSessionId := 1;
      nextQuestionId := 1;
    }

    /**
     * `start_new_session`: a new active test-mode session started at `now`
     * whose questions are the selected items numbered from 1. Nothing else
     * changes; every catalog item is asked exactly once (SelectItemsPermutesCatalog).
     */
    method StartNewSession(weakPointsMode: bool, draws: seq<nat>, now: Time) returns (sessionId: nat)
      requires Valid()
      modifies this
      ensures Valid()
      ensures sessionId == old(nextSessionId) && sessionId !in old(sessions)
      ensures nextSessionId == old(nextSessionId) + 1
      ensures nextQuestionId == old(nextQuestionId) + |catalog|
      ensures sessions == old(sessions)[sessionId :=
        StartedSession(catalog, old(histories), sessionId, old(nextQuestionId), weakPointsMode, draws, now)]
      ensures histories == old(histories) && testResults == old(testResults)
    {
      sessionId, sessions, nextQuestionId :=
        CreateSession(catalog, histories, sessions, testResults, nextSessionId, nextQuestionId, weakPointsMode, draws, now);
      nextSessionId := nextSessionId + 1;
    }

    /**
     * `current_question`: 404 for an unknown session, otherwise the
     * response CurrentQuestionOf describes, with both lists shuffled in place.
     */
    method CurrentQuestion(sessionId: nat, otherDraws: seq<nat>, choiceDraws: seq<nat>) returns (r: CurrentQuestionResult)
      ensures sessionId !in sessions ==> r == CurrentSessionNotFound
      ensures sessionId in sessions ==> r == CurrentQuestionOf(catalog, sessions[sessionId].questions, otherDraws, choiceDraws)
    {
      if sessionId !in sessions {
        return CurrentSessionNotFound;
      }
      var qs := sessions[sessionId].questions;
      var current := FirstUnanswered(qs);
      if current.None? {
        return AllAnswered;
      }
      var q := qs[current.value];
      var correct := q.vitalPoint;
      var others := ShuffledCopy(OtherPoints(catalog, correct), otherDraws);
      var wrong := if |others| <= 3 then others else others[..3];
      var choices := ShuffledCopy([correct] + wrong, choiceDraws);
      r := Current(q.id, q.questionOrder, correct.imageFile, correct.number, choices, |qs|, CountAnswered(qs));
    }
  
    /**
     * `submit_answer`: 404 for an unknown session or a question id that is
     * not one of its questions, with nothing changed. Otherwise the exact
     * string comparison decides correctness, the question records the
     * attempt and the item's history the answer, and the response carries
     * the correct name either way.
     */
    method SubmitAnswer(sessionId: nat, questionId: nat, selectedAnswer: string, now: Time) returns (r: SubmitResult)
      requires Valid()
      modifies this
      ensures Valid()
      ensures sessionId !in old(sessions) ==> r == SubmitSessionNotFound
      ensures sessionId in old(sessions) && FindQuestion(old(sessions)[sessionId].questions, questionId).None? ==>
        r == QuestionNotFound
      ensures !r.Submitted? ==> sessions == old(sessions) && histories == old(histories)
      ensures r.Submitted? ==>
        var s := old(sessions)[sessionId];
        var i := FindQuestion(s.questions, questionId).value;
        var vp := s.questions[i].vitalPoint;
        && sessionId in old(sessions) && FindQuestion(s.questions, questionId).Some?
        && r == Submitted(selectedAnswer == vp.name, vp.name)
        && sessions == old(sessions)[sessionId := s.(questions := AnswerAt(s.questions, i, r.isCorrect))]
        && histories == RecordAttempt(old(histories), vp, r.isCorrect, now)
      ensures testResults == old(testResults)
      ensures nextSessionId == old(nextSessionId) && nextQuestionId == old(nextQuestionId)
    {
      if sessionId !in sessions {
        return SubmitSessionNotFound;
      }
      var session := sessions[sessionId];
      var found := FindQuestion(session.questions, questionId);
      if found.None? {
        return QuestionNotFound;
      }
      var i := found.value;
      var question := session.questions[i];
      var correctAnswer := question.vitalPoint.name;
      var isCorrect := selectedAnswer == correctAnswer;
      SubmitKeepsValid(catalog, histories, sessions, testResults, nextSessionId, nextQuestionId, sessionId, i, isCorrect, now);
      sessions := sessions[sessionId := session.(questions := AnswerAt(session.questions, i, isCorrect))];
      histories := RecordAttempt(histories, question.vitalPoint, isCorrect, now);
      r := Submitted(isCorrect, correctAnswer);
    }

    /** `pause`: status becomes paused whatever it was; nothing else changes. */
    method Pause(sessionId: nat) returns (found: bool)
      requires Valid()
      modifies this
      ensures Valid()
      ensures found == (sessionId in old(sessions))
      ensures found ==> sessions == old(sessions)[sessionId := old(sessions)[sessionId].(status := Paused)]
      ensures !found ==> sessions == old(sessions)
      ensures histories == old(histories) && testResults == old(testResults)
      ensures nextSessionId == old(nextSessionId) && nextQuestionId == old(nextQuestionId)
    {
      found := sessionId in sessions;
      if found {
        var session := sessions[sessionId];
        StatusWriteKeepsValid(catalog, histories, sessions, testResults, nextSessionId, nextQuestionId, sessionId, Paused, session.completedAt);
        sessions := sessions[sessionId := session.(status := Paused)];
      }
    }

    /** `resume`: status becomes active whatever it was, even after completion; `completed_at` is kept. */
    method Resume(sessionId: nat) returns (found: bool)
      requires Valid()
      modifies this
      ensures Valid()
      ensures found == (sessionId in old(sessions))
      ensures found ==> sessions == old(sessions)[sessionId := old(sessions)[sessionId].(status := Active)]
      ensures !found ==> sessions == old(sessions)
      ensures histories == old(histories) && testResults == old(testResults)
      ensures nextSessionId == old(nextSessionId) && nextQuestionId == old(nextQuestionId)
    {
      found := sessionId in sessions;
      if found {
        var session := sessions[sessionId];
        StatusWriteKeepsValid(catalog, histories, sessions, testResults, nextSessionId, nextQuestionId, sessionId, Active, session.completedAt);
        sessions := sessions[sessionId := session.(status := Active)];
      }
    }

    /**
     * `complete`: status becomes completed and `completed_at` becomes `now`,
     * whatever the status was; no TestResult is written.
     */
    method Complete(sessionId: nat, now: Time) returns (found: bool)
      requires Valid()
      modifies this
      ensures Valid()
      ensures found == (sessionId in old(sessions))
      ensures found ==> sessions == old(sessions)[sessionId :=
        old(sessions)[sessionId].(status := Completed, completedAt := Some(now))]
      ensures !found ==> sessions == old(sessions)
      ensures histories == old(histories) && testResults == old(testResults)
      ensures nextSessionId == old(nextSessionId) && nextQuestionId == old(nextQuestionId)
    {
      found := sessionId in sessions;
      if found {
        var session := sessions[sessionId];
        StatusWriteKeepsValid(catalog, histories, sessions, testResults, nextSessionId, nextQuestionId, sessionId, Completed, Some(now));
        sessions := sessions[sessionId := session.(status := Completed, completedAt := Some(now))];
      }
    }
  }
}
