/**
 * The quiz app's database records (backend/quiz/models.py): their fields,
 * the values a freshly created row gets, the derived accuracy rate and the
 * uniqueness constraints the tables declare.
 */
module Models {
  import opened Optional
  import opened SeqFacts

  /** A DateTimeField value; the clock itself is a parameter of the operations. */
  type Time = int

  /** One row of the vital-point catalog. `id` is the auto-increment primary key. */
  datatype VitalPoint = VitalPoint(
    id: nat,
    number: string,
    name: string,
    reading: string,
    category: string,
    imageFile: string)

  /** Per-vital-point tally of answers (one-to-one with VitalPoint). */
  datatype LearningHistory = LearningHistory(
    vitalPoint: VitalPoint,
    correctCount: nat,
    incorrectCount: nat,
    lastLearnedAt: Option<Time>)

  /** The `choices` of QuizSession.status and QuizSession.mode. */
  datatype SessionStatus = Active | Paused | Completed
  datatype SessionMode = Test | Review

  /** One question of a session; the session owns its questions, in `questions`. */
  datatype SessionQuestion = SessionQuestion(
    id: nat,
    vitalPoint: VitalPoint,
    questionOrder: nat,
    isAnswered: bool,
    isCorrect: bool,
    attemptCount: nat)

  datatype QuizSession = QuizSession(
    id: nat,
    status: SessionStatus,
    mode: SessionMode,
    startedAt: Time,
    completedAt: Option<Time>,
    currentQuestionIndex: int,
    questions: seq<SessionQuestion>)

  /** Declared by the schema; no operation of the app creates or scores one. */
  datatype TestResult = TestResult(
    id: nat,
    sessionId: nat,
    completedAt: Time,
    totalQuestions: int,
    correctCount: int,
    incorrectCount: int,
    score: int)

  /** A LearningHistory as `get_or_create` makes it: both counts at their default 0, never learned. */
  function NewHistory(vp: VitalPoint): LearningHistory {
    LearningHistory(vp, 0, 0, None)
  }

  /** A QuizSession as `QuizSession.objects.create()` makes it at time `now`. */
  function NewSession(id: nat, now: Time): QuizSession {
    QuizSession(id, Active, Test, now, None, 0, [])
  }

  /** A SessionQuestion created with only its vital point and order given. */
  function NewQuestion(id: nat, vp: VitalPoint, order: nat): SessionQuestion {
    SessionQuestion(id, vp, order, false, false, 0)
  }

  /** The `accuracy_rate` property: percentage of correct answers, 0 before any answer. */
  function AccuracyRate(h: LearningHistory): (r: real)
    ensures 0.0 <= r <= 100.0
    ensures h.correctCount + h.incorrectCount == 0 ==> r == 0.0
    ensures h.correctCount + h.incorrectCount > 0 ==>
      r * ((h.correctCount + h.incorrectCount) as real) == (h.correctCount as real) * 100.0
  {
    Percentage(h.correctCount, h.correctCount + h.incorrectCount)
  }

  /** `part / whole * 100` when `whole` is positive, else 0 (shared with the statistics view). */
  function Percentage(part: nat, whole: nat): (r: real)
    requires part <= whole
    ensures 0.0 <= r <= 100.0
    ensures whole == 0 ==> r == 0.0
    ensures whole > 0 ==> r * (whole as real) == (part as real) * 100.0
  {
    if whole == 0 then 0.0
    else
      var q := (part as real) / (whole as real);
      assert q * (whole as real) == part as real;
      assert (1.0 - q) * (whole as real) == (whole - part) as real;
      q * 100.0
  }

  /** The catalog's primary key: no row twice and no two rows with the same id. */
  ghost predicate CatalogIdsDistinct(catalog: seq<VitalPoint>) {
    && NoDuplicates(catalog)
    && (forall x, y :: x in catalog && y in catalog && x.id == y.id ==> x == y)
  }

  /** LearningHistory.vital_point is a OneToOneField: at most one history row per vital point. */
  ghost predicate OneHistoryPerPoint(hs: seq<LearningHistory>) {
    && NoDuplicates(hs)
    && (forall h, h' :: h in hs && h' in hs && h.vitalPoint.id == h'.vitalPoint.id ==> h == h')
  }

  /** `unique_together = ['session', 'question_order']`, within one session's questions. */
  ghost predicate OrdersUnique(qs: seq<SessionQuestion>) {
    forall i, j :: 0 <= i < j < |qs| ==> qs[i].questionOrder != qs[j].questionOrder
  }

  /** TestResult.session is a OneToOneField: at most one result per session. */
  ghost predicate OneResultPerSession(rs: seq<TestResult>) {
    forall i, j :: 0 <= i < j < |rs| ==> rs[i].sessionId != rs[j].sessionId
  }

  /** A session whose question orders are 1..N in list order satisfies `unique_together`. */
  lemma DenseOrdersAreUnique(qs: seq<SessionQuestion>)
    requires forall k :: 0 <= k < |qs| ==> qs[k].questionOrder == k + 1
    ensures OrdersUnique(qs)
  {
  }
}
