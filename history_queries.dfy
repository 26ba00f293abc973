/**
 * Queries and updates on the LearningHistory table (backend/quiz/views.py):
 * the weak-point ranking shared by `weak_points` and the review ordering of
 * `start_new_session`, the `statistics` totals, and the `get_or_create`
 * plus counter increment performed by `submit_answer`.
 *
 * The table is a sequence of rows in primary-key order.
 */
module HistoryQueries {
  import opened Optional
  import opened SeqFacts
  import opened Models

  /** At most this many rows are returned by `weak_points`. */
  const WeakPointsLimit: nat := 10

  predicate IsWeak(h: LearningHistory) {
    h.incorrectCount > 0
  }

  // ---------------------------------------------------------------------
  // Lookup by vital point (the OneToOne key)

  /** Position of the first row for vital point `id`. */
  function FindHistory(hs: seq<LearningHistory>, id: nat): (r: Option<nat>)
    ensures r.Some? ==> r.value < |hs| && hs[r.value].vitalPoint.id == id
    ensures r.Some? ==> forall k :: 0 <= k < r.value ==> hs[k].vitalPoint.id != id
    ensures r.None? ==> forall k :: 0 <= k < |hs| ==> hs[k].vitalPoint.id != id
  {
    if hs == [] then None
    else if hs[0].vitalPoint.id == id then Some(0)
    else match FindHistory(hs[1..], id)
      case Some(k) => Some(k + 1)
      case None => None
  }

  /** The history row of vital point `id`, if it has one. */
  function HistoryFor(hs: seq<LearningHistory>, id: nat): Option<LearningHistory> {
    match FindHistory(hs, id)
    case Some(i) => Some(hs[i])
    case None => None
  }

  /** `incorrect_count` of vital point `id`, 0 when it has no history. */
  function IncorrectOf(hs: seq<LearningHistory>, id: nat): nat {
    match HistoryFor(hs, id)
    case Some(h) => h.incorrectCount
    case None => 0
  }

  /** `correct_count` of vital point `id`, 0 when it has no history. */
  function CorrectOf(hs: seq<LearningHistory>, id: nat): nat {
    match HistoryFor(hs, id)
    case Some(h) => h.correctCount
    case None => 0
  }

  /** Under the OneToOne constraint, the row found for a member's vital point is that member. */
  lemma HistoryForMember(hs: seq<LearningHistory>, h: LearningHistory)
    requires OneHistoryPerPoint(hs) && h in hs
    ensures HistoryFor(hs, h.vitalPoint.id) == Some(h)
  {
    var i :| 0 <= i < |hs| && hs[i] == h;
    var f := FindHistory(hs, h.vitalPoint.id);
    assert f.Some?;
  }

  /** Two tables with the same key at every position find the same row positions. */
  lemma FindHistorySameKeys(a: seq<LearningHistory>, b: seq<LearningHistory>, id: nat)
    requires |a| == |b|
    requires forall k :: 0 <= k < |a| ==> a[k].vitalPoint.id == b[k].vitalPoint.id
    ensures FindHistory(a, id) == FindHistory(b, id)
  {
    var fa, fb := FindHistory(a, id), FindHistory(b, id);
    if fa.Some? && fb.Some? {
      assert !(fa.value < fb.value) && !(fb.value < fa.value);
    }
  }

  /** A row appended to the table is found only for a vital point without an earlier row. */
  lemma {:induction false} FindHistoryAppend(hs: seq<LearningHistory>, h: LearningHistory, id: nat)
    ensures FindHistory(hs + [h], id)
         == if FindHistory(hs, id).Some? then FindHistory(hs, id)
            else if h.vitalPoint.id == id then Some(|hs|) else None
  {
    if hs != [] {
      FindHistoryAppend(hs[1..], h, id);
      assert (hs + [h])[1..] == hs[1..] + [h];
    }
  }

  // ---------------------------------------------------------------------
  // The weak-point ranking: filter(incorrect_count__gt=0).order_by('-incorrect_count')

  /** The weak rows, in table order. */
  function WeakOnly(hs: seq<LearningHistory>): (r: seq<LearningHistory>)
    ensures |r| <= |hs|
  {
    if hs == [] then []
    else (if IsWeak(hs[0]) then [hs[0]] else []) + WeakOnly(hs[1..])
  }

  /** The filter keeps every weak row with its multiplicity and drops every other row. */
  lemma {:induction false} WeakOnlyMultiset(hs: seq<LearningHistory>)
    ensures forall h :: multiset(WeakOnly(hs))[h] == if IsWeak(h) then multiset(hs)[h] else 0
    ensures forall h :: h in WeakOnly(hs) <==> h in hs && IsWeak(h)
  {
    if hs != [] {
      WeakOnlyMultiset(hs[1..]);
      assert hs == [hs[0]] + hs[1..];
      forall h ensures h in WeakOnly(hs) <==> h in hs && IsWeak(h) {
        assert h in WeakOnly(hs) <==> h in multiset(WeakOnly(hs));
        assert h in hs <==> h in multiset(hs);
      }
    }
  }

  ghost predicate SortedByIncorrectDesc(hs: seq<LearningHistory>) {
    forall i, j :: 0 <= i < j < |hs| ==> hs[i].incorrectCount >= hs[j].incorrectCount
  }

  /** Insert `h` before the first row with a smaller or equal `incorrect_count`. */
  function InsertByIncorrect(h: LearningHistory, s: seq<LearningHistory>): (r: seq<LearningHistory>)
    ensures |r| == |s| + 1
  {
    if s == [] || s[0].incorrectCount <= h.incorrectCount then [h] + s
    else [s[0]] + InsertByIncorrect(h, s[1..])
  }

  lemma {:induction false} InsertByIncorrectMultiset(h: LearningHistory, s: seq<LearningHistory>)
    ensures multiset(InsertByIncorrect(h, s)) == multiset(s) + multiset{h}
  {
    if s != [] && s[0].incorrectCount > h.incorrectCount {
      InsertByIncorrectMultiset(h, s[1..]);
      assert s == [s[0]] + s[1..];
    }
  }

  /** Every row of the result is `h` or a row of `s`. */
  lemma InsertByIncorrectMembers(h: LearningHistory, s: seq<LearningHistory>)
    ensures forall x :: x in InsertByIncorrect(h, s) ==> x == h || x in s
  {
    InsertByIncorrectMultiset(h, s);
    forall x | x in InsertByIncorrect(h, s) ensures x == h || x in s {
      assert x in multiset(InsertByIncorrect(h, s));
    }
  }

  lemma {:induction false} InsertByIncorrectSorted(h: LearningHistory, s: seq<LearningHistory>)
    requires SortedByIncorrectDesc(s)
    ensures SortedByIncorrectDesc(InsertByIncorrect(h, s))
  {
    if s != [] && s[0].incorrectCount > h.incorrectCount {
      var rest := InsertByIncorrect(h, s[1..]);
      InsertByIncorrectSorted(h, s[1..]);
      InsertByIncorrectMembers(h, s[1..]);
      var r := [s[0]] + rest;
      forall i, j | 0 <= i < j < |r| ensures r[i].incorrectCount >= r[j].incorrectCount {
        if i == 0 {
          assert r[j] in rest;
          if r[j] != h {
            var k :| 0 <= k < |s[1..]| && s[1..][k] == r[j];
            assert s[k + 1] == r[j];
          }
        } else {
          assert r[i] == rest[i - 1] && r[j] == rest[j - 1];
        }
      }
    }
  }

  lemma InsertByIncorrectCorrect(h: LearningHistory, s: seq<LearningHistory>)
    requires SortedByIncorrectDesc(s)
    ensures SortedByIncorrectDesc(InsertByIncorrect(h, s))
    ensures multiset(InsertByIncorrect(h, s)) == multiset(s) + multiset{h}
  {
    InsertByIncorrectSorted(h, s);
    InsertByIncorrectMultiset(h, s);
  }

  /** Insertion sort on descending `incorrect_count`; among equal counts the earlier row stays first. */
  function SortByIncorrectDesc(hs: seq<LearningHistory>): (r: seq<LearningHistory>)
    ensures |r| == |hs|
  {
    if hs == [] then [] else InsertByIncorrect(hs[0], SortByIncorrectDesc(hs[1..]))
  }

  lemma {:induction false} SortByIncorrectDescCorrect(hs: seq<LearningHistory>)
    ensures SortedByIncorrectDesc(SortByIncorrectDesc(hs))
    ensures multiset(SortByIncorrectDesc(hs)) == multiset(hs)
  {
    if hs != [] {
      SortByIncorrectDescCorrect(hs[1..]);
      InsertByIncorrectCorrect(hs[0], SortByIncorrectDesc(hs[1..]));
      assert hs == [hs[0]] + hs[1..];
    }
  }

  /** The weak rows ordered by `-incorrect_count`. */
  function WeakRanking(hs: seq<LearningHistory>): seq<LearningHistory> {
    SortByIncorrectDesc(WeakOnly(hs))
  }

  /**
   * The ranking holds exactly the weak rows, each as often as in the table,
   * in non-increasing `incorrect_count` order, and it keeps the OneToOne
   * constraint.
   */
  lemma WeakRankingProperties(hs: seq<LearningHistory>)
    ensures SortedByIncorrectDesc(WeakRanking(hs))
    ensures forall h :: multiset(WeakRanking(hs))[h] == if IsWeak(h) then multiset(hs)[h] else 0
    ensures forall h :: h in WeakRanking(hs) <==> h in hs && IsWeak(h)
    ensures OneHistoryPerPoint(hs) ==> OneHistoryPerPoint(WeakRanking(hs))
  {
    WeakOnlyMultiset(hs);
    SortByIncorrectDescCorrect(WeakOnly(hs));
    WeakRankingMembers(hs);
    if OneHistoryPerPoint(hs) {
      WeakRankingOnePerPoint(hs);
    }
  }

  /** The ranking holds exactly the weak rows of the table. */
  lemma WeakRankingMembers(hs: seq<LearningHistory>)
    ensures forall h :: h in WeakRanking(hs) <==> h in hs && IsWeak(h)
  {
    var w := WeakOnly(hs);
    var r := WeakRanking(hs);
    WeakOnlyMultiset(hs);
    SortByIncorrectDescCorrect(w);
    forall h ensures h in r <==> h in w {
      assert h in r <==> h in multiset(r);
      assert h in w <==> h in multiset(w);
    }
  }

  /** The ranking is ordered by non-increasing `incorrect_count`. */
  lemma WeakRankingSorted(hs: seq<LearningHistory>)
    ensures SortedByIncorrectDesc(WeakRanking(hs))
  {
    SortByIncorrectDescCorrect(WeakOnly(hs));
  }

  /** The ranking keeps the OneToOne constraint of the table. */
  lemma WeakRankingOnePerPoint(hs: seq<LearningHistory>)
    requires OneHistoryPerPoint(hs)
    ensures OneHistoryPerPoint(WeakRanking(hs))
  {
    var w := WeakOnly(hs);
    var r := WeakRanking(hs);
    WeakOnlyMultiset(hs);
    SortByIncorrectDescCorrect(w);
    WeakRankingMembers(hs);
    assert multiset(r) == multiset(w);
    assert multiset(w) <= multiset(hs);
    SubMultisetNoDuplicates(r, hs);
  }

  /** The `weak_points` view: the first ten rows of the ranking. */
  function WeakPoints(hs: seq<LearningHistory>): (r: seq<LearningHistory>)
    ensures |r| <= WeakPointsLimit
  {
    var w := WeakRanking(hs);
    if |w| <= WeakPointsLimit then w else w[..WeakPointsLimit]
  }

  /**
   * `weak_points` returns weak rows of the table in non-increasing
   * `incorrect_count` order, and every weak row it leaves out is preceded by
   * ten rows with at least its `incorrect_count`.
   */
  lemma WeakPointsProperties(hs: seq<LearningHistory>)
    ensures |WeakPoints(hs)| <= WeakPointsLimit
    ensures SortedByIncorrectDesc(WeakPoints(hs))
    ensures forall h :: h in WeakPoints(hs) ==> h in hs && IsWeak(h)
    ensures forall h :: h in hs && IsWeak(h) && h !in WeakPoints(hs) ==>
      |WeakPoints(hs)| == WeakPointsLimit &&
      forall k :: 0 <= k < WeakPointsLimit ==> WeakPoints(hs)[k].incorrectCount >= h.incorrectCount
  {
    var w := WeakRanking(hs);
    var r := WeakPoints(hs);
    WeakRankingMembers(hs);
    WeakRankingSorted(hs);
    assert forall k :: 0 <= k < |r| ==> r[k] == w[k];
    forall h | h in hs && IsWeak(h) && h !in r
      ensures |r| == WeakPointsLimit
      ensures forall k :: 0 <= k < WeakPointsLimit ==> r[k].incorrectCount >= h.incorrectCount
    {
      assert h in w;
      var p :| 0 <= p < |w| && w[p] == h;
    }
  }

  // ---------------------------------------------------------------------
  // The statistics view

  function TotalCorrect(hs: seq<LearningHistory>): nat {
    if hs == [] then 0 else hs[0].correctCount + TotalCorrect(hs[1..])
  }

  function TotalIncorrect(hs: seq<LearningHistory>): nat {
    if hs == [] then 0 else hs[0].incorrectCount + TotalIncorrect(hs[1..])
  }

  datatype Statistics = Statistics(
    totalCorrect: nat,
    totalIncorrect: nat,
    totalAttempts: nat,
    accuracyRate: real)

  /** The `statistics` view: sums over all rows and the overall percentage correct. */
  function ComputeStatistics(hs: seq<LearningHistory>): (r: Statistics)
    ensures r.totalCorrect == TotalCorrect(hs) && r.totalIncorrect == TotalIncorrect(hs)
    ensures r.totalAttempts == r.totalCorrect + r.totalIncorrect
    ensures 0.0 <= r.accuracyRate <= 100.0
    ensures r.totalAttempts == 0 ==> r.accuracyRate == 0.0
    ensures r.totalAttempts > 0 ==>
      r.accuracyRate * (r.totalAttempts as real) == (r.totalCorrect as real) * 100.0
  {
    var c, i := TotalCorrect(hs), TotalIncorrect(hs);
    Statistics(c, i, c + i, Percentage(c, c + i))
  }

  /** Replacing one row changes the totals by the difference of that row's counts. */
  lemma {:induction false} TotalsUpdate(hs: seq<LearningHistory>, i: nat, h: LearningHistory)
    requires i < |hs|
    ensures TotalCorrect(hs[i := h]) == TotalCorrect(hs) - hs[i].correctCount + h.correctCount
    ensures TotalIncorrect(hs[i := h]) == TotalIncorrect(hs) - hs[i].incorrectCount + h.incorrectCount
  {
    if i > 0 {
      TotalsUpdate(hs[1..], i - 1, h);
      assert hs[i := h][1..] == hs[1..][i - 1 := h];
    }
  }

  /** Appending a row adds its counts to the totals. */
  lemma {:induction false} TotalsAppend(hs: seq<LearningHistory>, h: LearningHistory)
    ensures TotalCorrect(hs + [h]) == TotalCorrect(hs) + h.correctCount
    ensures TotalIncorrect(hs + [h]) == TotalIncorrect(hs) + h.incorrectCount
  {
    if hs != [] {
      TotalsAppend(hs[1..], h);
      assert (hs + [h])[1..] == hs[1..] + [h];
    }
  }

  // ---------------------------------------------------------------------
  // get_or_create(vital_point=...) followed by the counter increment

  /** One more correct or incorrect answer, answered at `now`. */
  function Bump(h: LearningHistory, isCorrect: bool, now: Time): LearningHistory {
    if isCorrect then h.(correctCount := h.correctCount + 1, lastLearnedAt := Some(now))
    else h.(incorrectCount := h.incorrectCount + 1, lastLearnedAt := Some(now))
  }

  /** The history row `submit_answer` writes for `vp`: its existing row, or a new zero row, bumped. */
  function AttemptRow(hs: seq<LearningHistory>, vp: VitalPoint, isCorrect: bool, now: Time): LearningHistory {
    Bump(HistoryFor(hs, vp.id).GetOr(NewHistory(vp)), isCorrect, now)
  }

  /**
   * The first answer about a vital point creates its history with both
   * counts at 0 and bumps one of them: the row written has exactly one
   * attempt, of the kind given, stamped `now`.
   */
  lemma FirstAttemptRow(hs: seq<LearningHistory>, vp: VitalPoint, isCorrect: bool, now: Time)
    requires FindHistory(hs, vp.id).None?
    ensures AttemptRow(hs, vp, isCorrect, now)
         == LearningHistory(vp, if isCorrect then 1 else 0, if isCorrect then 0 else 1, Some(now))
  {
  }

  /** The table after recording one answer about `vp`. */
  function RecordAttempt(hs: seq<LearningHistory>, vp: VitalPoint, isCorrect: bool, now: Time): seq<LearningHistory> {
    match FindHistory(hs, vp.id)
    case Some(i) => hs[i := Bump(hs[i], isCorrect, now)]
    case None => hs + [Bump(NewHistory(vp), isCorrect, now)]
  }

  /** Recording an answer for a vital point that already has a row rewrites that row in place. */
  lemma RecordAttemptExisting(hs: seq<LearningHistory>, vp: VitalPoint, isCorrect: bool, now: Time, i: nat)
    requires FindHistory(hs, vp.id) == Some(i)
    ensures RecordAttempt(hs, vp, isCorrect, now) == hs[i := AttemptRow(hs, vp, isCorrect, now)]
    ensures forall id :: FindHistory(RecordAttempt(hs, vp, isCorrect, now), id) == FindHistory(hs, id)
    ensures forall h :: h in RecordAttempt(hs, vp, isCorrect, now) ==> h in hs || h == AttemptRow(hs, vp, isCorrect, now)
  {
    var r := RecordAttempt(hs, vp, isCorrect, now);
    forall id ensures FindHistory(r, id) == FindHistory(hs, id) {
      FindHistorySameKeys(r, hs, id);
    }
    forall h | h in r ensures h in hs || h == AttemptRow(hs, vp, isCorrect, now) {
      var k :| 0 <= k < |r| && r[k] == h;
      if k != i { assert h == hs[k]; }
    }
  }

  /** Under the OneToOne constraint distinct positions hold distinct vital points. */
  lemma OnePerPointKeys(hs: seq<LearningHistory>)
    requires OneHistoryPerPoint(hs)
    ensures forall k, k' :: 0 <= k < k' < |hs| ==> hs[k].vitalPoint.id != hs[k'].vitalPoint.id
  {
    forall k, k' | 0 <= k < k' < |hs| ensures hs[k].vitalPoint.id != hs[k'].vitalPoint.id {
      NoDuplicatesAt(hs, k, k');
      assert hs[k] in hs && hs[k'] in hs;
    }
  }

  /** A table whose positions hold distinct vital points meets the OneToOne constraint. */
  lemma KeysOnePerPoint(hs: seq<LearningHistory>)
    requires forall k, k' :: 0 <= k < k' < |hs| ==> hs[k].vitalPoint.id != hs[k'].vitalPoint.id
    ensures OneHistoryPerPoint(hs)
  {
    DistinctHasNoDuplicates(hs);
    forall h, h' | h in hs && h' in hs && h.vitalPoint.id == h'.vitalPoint.id ensures h == h' {
      var k :| 0 <= k < |hs| && hs[k] == h;
      var k' :| 0 <= k' < |hs| && hs[k'] == h';
    }
  }

  /** Replacing a row by one with the same key keeps the OneToOne constraint. */
  lemma ReplaceKeepsOnePerPoint(hs: seq<LearningHistory>, i: nat, b: LearningHistory)
    requires OneHistoryPerPoint(hs) && i < |hs| && b.vitalPoint.id == hs[i].vitalPoint.id
    ensures OneHistoryPerPoint(hs[i := b])
  {
    OnePerPointKeys(hs);
    var r := hs[i := b];
    assert forall k :: 0 <= k < |r| ==> r[k].vitalPoint.id == hs[k].vitalPoint.id;
    KeysOnePerPoint(r);
  }

  /** Appending a row for a vital point without one keeps the OneToOne constraint. */
  lemma AppendKeepsOnePerPoint(hs: seq<LearningHistory>, b: LearningHistory)
    requires OneHistoryPerPoint(hs) && FindHistory(hs, b.vitalPoint.id).None?
    ensures OneHistoryPerPoint(hs + [b])
  {
    OnePerPointKeys(hs);
    var r := hs + [b];
    assert forall k :: 0 <= k < |hs| ==> r[k] == hs[k];
    KeysOnePerPoint(r);
  }

  /**
   * Recording an answer bumps exactly one counter of `vp`'s history by one
   * (creating the history with zero counts first if there was none), stamps
   * it with `now`, leaves every other vital point's history as it was, adds
   * one to the matching total, and keeps the OneToOne constraint.
   */
  lemma RecordAttemptEffect(hs: seq<LearningHistory>, vp: VitalPoint, isCorrect: bool, now: Time)
    ensures HistoryFor(RecordAttempt(hs, vp, isCorrect, now), vp.id) == Some(AttemptRow(hs, vp, isCorrect, now))
    ensures forall id :: id != vp.id ==> HistoryFor(RecordAttempt(hs, vp, isCorrect, now), id) == HistoryFor(hs, id)
    ensures TotalCorrect(RecordAttempt(hs, vp, isCorrect, now)) == TotalCorrect(hs) + (if isCorrect then 1 else 0)
    ensures TotalIncorrect(RecordAttempt(hs, vp, isCorrect, now)) == TotalIncorrect(hs) + (if isCorrect then 0 else 1)
    ensures forall h :: h in RecordAttempt(hs, vp, isCorrect, now) ==> h in hs || h == AttemptRow(hs, vp, isCorrect, now)
    ensures OneHistoryPerPoint(hs) ==> OneHistoryPerPoint(RecordAttempt(hs, vp, isCorrect, now))
  {
    var r := RecordAttempt(hs, vp, isCorrect, now);
    var b := AttemptRow(hs, vp, isCorrect, now);
    match FindHistory(hs, vp.id)
    case Some(i) =>
      RecordAttemptExisting(hs, vp, isCorrect, now, i);
      TotalsUpdate(hs, i, b);
      if OneHistoryPerPoint(hs) {
        ReplaceKeepsOnePerPoint(hs, i, b);
      }
    case None =>
      assert r == hs + [b];
      forall id ensures FindHistory(r, id) == if FindHistory(hs, id).Some? then FindHistory(hs, id)
                                            else if b.vitalPoint.id == id then Some(|hs|) else None {
        FindHistoryAppend(hs, b, id);
      }
      TotalsAppend(hs, b);
      if OneHistoryPerPoint(hs) {
        AppendKeepsOnePerPoint(hs, b);
      }
  }

  /** The row found for a vital point is a row of the table. */
  lemma HistoryForIsRow(hs: seq<LearningHistory>, id: nat)
    ensures HistoryFor(hs, id).Some? ==> HistoryFor(hs, id).value in hs && HistoryFor(hs, id).value.vitalPoint.id == id
  {
  }

  /** The row written for `vp` belongs to `vp` or to a row already in the table with its id. */
  lemma AttemptRowPoint(hs: seq<LearningHistory>, vp: VitalPoint, isCorrect: bool, now: Time)
    ensures AttemptRow(hs, vp, isCorrect, now).vitalPoint.id == vp.id
    ensures AttemptRow(hs, vp, isCorrect, now).vitalPoint == vp
         || AttemptRow(hs, vp, isCorrect, now) == Bump(HistoryFor(hs, vp.id).value, isCorrect, now)
    ensures HistoryFor(hs, vp.id).Some? ==> HistoryFor(hs, vp.id).value in hs
  {
    HistoryForIsRow(hs, vp.id);
  }

  /**
   * Counts never decrease: recording an answer adds exactly one attempt to
   * `vp` and none to any other vital point.
   */
  lemma RecordAttemptCounts(hs: seq<LearningHistory>, vp: VitalPoint, isCorrect: bool, now: Time, id: nat)
    ensures CorrectOf(RecordAttempt(hs, vp, isCorrect, now), id) >= CorrectOf(hs, id)
    ensures IncorrectOf(RecordAttempt(hs, vp, isCorrect, now), id) >= IncorrectOf(hs, id)
    ensures CorrectOf(RecordAttempt(hs, vp, isCorrect, now), id) + IncorrectOf(RecordAttempt(hs, vp, isCorrect, now), id)
         == CorrectOf(hs, id) + IncorrectOf(hs, id) + (if id == vp.id then 1 else 0)
    ensures id == vp.id ==>
      CorrectOf(RecordAttempt(hs, vp, isCorrect, now), id) == CorrectOf(hs, id) + (if isCorrect then 1 else 0)
  {
    RecordAttemptEffect(hs, vp, isCorrect, now);
  }
}
