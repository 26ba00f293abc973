/**
 * The item lists built by the session views (backend/quiz/views.py):
 * the order of a new session's questions in `start_new_session` and the
 * answer choices offered by `current_question`.
 *
 * The catalog is the VitalPoint table in its declared `ordering = ['id']`;
 * each `random.shuffle` is a Fisher-Yates shuffle under a draws parameter.
 */
module Selection {
  import opened Optional
  import opened SeqFacts
  import opened Models
  import opened Shuffle
  import opened HistoryQueries

  /** Every history row belongs to a catalog item, at most one row per item. */
  ghost predicate HistoriesOver(hs: seq<LearningHistory>, catalog: seq<VitalPoint>) {
    OneHistoryPerPoint(hs) && forall h | h in hs :: h.vitalPoint in catalog
  }

  /** `[h.vital_point for h in histories]` */
  function VitalPointsOf(hs: seq<LearningHistory>): (r: seq<VitalPoint>)
    ensures |r| == |hs| && forall k :: 0 <= k < |hs| ==> r[k] == hs[k].vitalPoint
  {
    if hs == [] then [] else [hs[0].vitalPoint] + VitalPointsOf(hs[1..])
  }

  /** `[vp.id for vp in ...]` as the set used by `id__in`. */
  function IdsOf(vps: seq<VitalPoint>): set<nat> {
    set v | v in vps :: v.id
  }

  /** `exclude(id__in=ids)`: the items whose id is not in `ids`, in catalog order. */
  function ExcludeIds(catalog: seq<VitalPoint>, ids: set<nat>): (r: seq<VitalPoint>)
    ensures |r| <= |catalog|
  {
    if catalog == [] then []
    else (if catalog[0].id in ids then [] else [catalog[0]]) + ExcludeIds(catalog[1..], ids)
  }

  /** The complement of ExcludeIds: the items whose id is in `ids`. */
  function KeepIds(catalog: seq<VitalPoint>, ids: set<nat>): (r: seq<VitalPoint>)
    ensures |r| <= |catalog|
  {
    if catalog == [] then []
    else (if catalog[0].id in ids then [catalog[0]] else []) + KeepIds(catalog[1..], ids)
  }

  /** Keeping and excluding the same ids splits the catalog. */
  lemma {:induction false} SplitByIds(catalog: seq<VitalPoint>, ids: set<nat>)
    ensures multiset(KeepIds(catalog, ids)) + multiset(ExcludeIds(catalog, ids)) == multiset(catalog)
  {
    if catalog != [] {
      var x, rest := catalog[0], catalog[1..];
      SplitByIds(rest, ids);
      assert catalog == [x] + rest;
      assert multiset(catalog) == multiset{x} + multiset(rest);
      if x.id in ids {
        assert KeepIds(catalog, ids) == [x] + KeepIds(rest, ids);
        assert ExcludeIds(catalog, ids) == ExcludeIds(rest, ids);
      } else {
        assert KeepIds(catalog, ids) == KeepIds(rest, ids);
        assert ExcludeIds(catalog, ids) == [x] + ExcludeIds(rest, ids);
      }
    }
  }

  /** ExcludeIds keeps exactly the catalog items whose id is outside `ids`. */
  lemma {:induction false} ExcludeIdsMembers(catalog: seq<VitalPoint>, ids: set<nat>)
    ensures forall x :: x in ExcludeIds(catalog, ids) <==> x in catalog && x.id !in ids
  {
    if catalog != [] {
      var x, rest := catalog[0], catalog[1..];
      ExcludeIdsMembers(rest, ids);
      assert catalog == [x] + rest;
    }
  }

  /** KeepIds keeps exactly the catalog items whose id is in `ids`. */
  lemma {:induction false} KeepIdsMembers(catalog: seq<VitalPoint>, ids: set<nat>)
    ensures forall x :: x in KeepIds(catalog, ids) <==> x in catalog && x.id in ids
  {
    if catalog != [] {
      var x, rest := catalog[0], catalog[1..];
      KeepIdsMembers(rest, ids);
      assert catalog == [x] + rest;
    }
  }

  /** Excluding no id leaves the catalog as it is. */
  lemma {:induction false} ExcludeNothing(catalog: seq<VitalPoint>)
    ensures ExcludeIds(catalog, {}) == catalog
  {
    if catalog != [] {
      ExcludeNothing(catalog[1..]);
      assert catalog == [catalog[0]] + catalog[1..];
    }
  }

  // ---------------------------------------------------------------------
  // start_new_session

  /** The vital points of the weak ranking: the prefix of a weak-points-mode session. */
  function WeakItems(hs: seq<LearningHistory>): seq<VitalPoint> {
    VitalPointsOf(WeakRanking(hs))
  }

  /** The list whose items are shuffled: the whole catalog, or the catalog without the weak items. */
  function ShufflePool(catalog: seq<VitalPoint>, hs: seq<LearningHistory>, weakPointsMode: bool): seq<VitalPoint> {
    if weakPointsMode then ExcludeIds(catalog, IdsOf(WeakItems(hs))) else catalog
  }

  /** The part placed before the shuffled pool: the weak items, or nothing. */
  function FixedPrefix(hs: seq<LearningHistory>, weakPointsMode: bool): seq<VitalPoint> {
    if weakPointsMode then WeakItems(hs) else []
  }

  /** `all_vital_points`: the items of a new session, in question order. */
  function SelectItems(catalog: seq<VitalPoint>, hs: seq<LearningHistory>, weakPointsMode: bool, draws: seq<nat>): seq<VitalPoint> {
    FixedPrefix(hs, weakPointsMode) + Shuffled(ShufflePool(catalog, hs, weakPointsMode), draws)
  }

  /** The weak items lie in the catalog, in ranking order, with pairwise different ids. */
  lemma WeakItemsDistinct(catalog: seq<VitalPoint>, hs: seq<LearningHistory>)
    requires HistoriesOver(hs, catalog)
    ensures forall i, j :: 0 <= i < j < |WeakItems(hs)| ==> WeakItems(hs)[i].id != WeakItems(hs)[j].id
    ensures NoDuplicates(WeakItems(hs))
    ensures forall x | x in WeakItems(hs) :: x in catalog
  {
    var ranking := WeakRanking(hs);
    var w := WeakItems(hs);
    WeakRankingMembers(hs);
    WeakRankingOnePerPoint(hs);
    OnePerPointKeys(ranking);
    DistinctHasNoDuplicates(w);
    forall x | x in w ensures x in catalog {
      var k :| 0 <= k < |w| && w[k] == x;
      assert ranking[k] in ranking;
    }
  }

  /** Each weak item's history is the ranking row it came from. */
  lemma WeakItemsHistories(catalog: seq<VitalPoint>, hs: seq<LearningHistory>)
    requires HistoriesOver(hs, catalog)
    ensures forall k :: 0 <= k < |WeakItems(hs)| ==> HistoryFor(hs, WeakItems(hs)[k].id) == Some(WeakRanking(hs)[k])
    ensures forall x | x in WeakItems(hs) :: IncorrectOf(hs, x.id) > 0
  {
    var ranking := WeakRanking(hs);
    var w := WeakItems(hs);
    WeakRankingMembers(hs);
    forall k | 0 <= k < |w| ensures HistoryFor(hs, w[k].id) == Some(ranking[k]) {
      assert ranking[k] in ranking;
      HistoryForMember(hs, ranking[k]);
    }
    forall x | x in w ensures IncorrectOf(hs, x.id) > 0 {
      var k :| 0 <= k < |w| && w[k] == x;
      assert ranking[k] in ranking;
    }
  }

  /**
   * Under the table constraints a catalog item is a weak item exactly when
   * its id is among the weak ids, exactly when its history has a positive
   * `incorrect_count`.
   */
  lemma WeakItemsExactly(catalog: seq<VitalPoint>, hs: seq<LearningHistory>)
    requires CatalogIdsDistinct(catalog) && HistoriesOver(hs, catalog)
    ensures forall x | x in catalog :: x in WeakItems(hs) <==> x.id in IdsOf(WeakItems(hs))
    ensures forall x | x in catalog :: x in WeakItems(hs) <==> IncorrectOf(hs, x.id) > 0
  {
    var ranking := WeakRanking(hs);
    var w := WeakItems(hs);
    WeakItemsDistinct(catalog, hs);
    WeakItemsHistories(catalog, hs);
    forall x | x in catalog && x.id in IdsOf(w) ensures x in w {
      var v :| v in w && v.id == x.id;
    }
    WeakRankingMembers(hs);
    forall x | x in catalog && IncorrectOf(hs, x.id) > 0 ensures x in w {
      var i := FindHistory(hs, x.id).value;
      var h := hs[i];
      assert h in ranking;
      var k :| 0 <= k < |ranking| && ranking[k] == h;
      assert w[k] == h.vitalPoint;
    }
  }

  /**
   * In either mode a new session asks every catalog item exactly once:
   * the items form a permutation of the catalog.
   */
  lemma SelectItemsPermutesCatalog(catalog: seq<VitalPoint>, hs: seq<LearningHistory>, weakPointsMode: bool, draws: seq<nat>)
    requires CatalogIdsDistinct(catalog) && HistoriesOver(hs, catalog)
    ensures multiset(SelectItems(catalog, hs, weakPointsMode, draws)) == multiset(catalog)
    ensures |SelectItems(catalog, hs, weakPointsMode, draws)| == |catalog|
    ensures forall x :: multiset(SelectItems(catalog, hs, weakPointsMode, draws))[x] == if x in catalog then 1 else 0
  {
    var pool := ShufflePool(catalog, hs, weakPointsMode);
    ShuffledPermutes(pool, draws);
    if weakPointsMode {
      var w := WeakItems(hs);
      var ids := IdsOf(w);
      WeakItemsDistinct(catalog, hs);
      WeakItemsExactly(catalog, hs);
      SplitByIds(catalog, ids);
      KeepIdsMembers(catalog, ids);
      var keep := KeepIds(catalog, ids);
      SubMultisetNoDuplicates(keep, catalog);
      forall x ensures x in keep <==> x in w {
      }
      SameMembersSameMultiset(keep, w);
    }
    var r := SelectItems(catalog, hs, weakPointsMode, draws);
    assert |r| == |multiset(r)|;
    forall x ensures multiset(r)[x] == if x in catalog then 1 else 0 {
      assert x in catalog <==> x in multiset(catalog);
    }
  }

  /** Every item of a new session is a catalog item, and there are as many as catalog items. */
  lemma SelectItemsInCatalog(catalog: seq<VitalPoint>, hs: seq<LearningHistory>, weakPointsMode: bool, draws: seq<nat>)
    requires CatalogIdsDistinct(catalog) && HistoriesOver(hs, catalog)
    ensures |SelectItems(catalog, hs, weakPointsMode, draws)| == |catalog|
    ensures forall k :: 0 <= k < |SelectItems(catalog, hs, weakPointsMode, draws)| ==>
      SelectItems(catalog, hs, weakPointsMode, draws)[k] in catalog
  {
    var items := SelectItems(catalog, hs, weakPointsMode, draws);
    SelectItemsPermutesCatalog(catalog, hs, weakPointsMode, draws);
    forall k | 0 <= k < |items| ensures items[k] in catalog {
      assert items[k] in multiset(items);
    }
  }

  /**
   * In weak-points mode the session opens with exactly the items that have
   * a positive `incorrect_count`, in non-increasing `incorrect_count` order,
   * and every later item has no history or an `incorrect_count` of 0.
   */
  lemma WeakModeOrder(catalog: seq<VitalPoint>, hs: seq<LearningHistory>, draws: seq<nat>)
    requires CatalogIdsDistinct(catalog) && HistoriesOver(hs, catalog)
    ensures |WeakItems(hs)| <= |SelectItems(catalog, hs, true, draws)|
    ensures forall x :: x in SelectItems(catalog, hs, true, draws)[..|WeakItems(hs)|] <==>
      x in catalog && IncorrectOf(hs, x.id) > 0
    ensures forall i, j :: 0 <= i < j < |WeakItems(hs)| ==>
      IncorrectOf(hs, SelectItems(catalog, hs, true, draws)[i].id) >= IncorrectOf(hs, SelectItems(catalog, hs, true, draws)[j].id)
    ensures forall k :: |WeakItems(hs)| <= k < |SelectItems(catalog, hs, true, draws)| ==>
      IncorrectOf(hs, SelectItems(catalog, hs, true, draws)[k].id) == 0
  {
    var w := WeakItems(hs);
    var ranking := WeakRanking(hs);
    var pool := ShufflePool(catalog, hs, true);
    var r := SelectItems(catalog, hs, true, draws);
    WeakItemsDistinct(catalog, hs);
    WeakItemsHistories(catalog, hs);
    WeakItemsExactly(catalog, hs);
    WeakRankingSorted(hs);
    assert r[..|w|] == w;
    forall k | 0 <= k < |w| ensures IncorrectOf(hs, r[k].id) == ranking[k].incorrectCount {
      assert r[k] == w[k];
    }
    ShuffledPermutes(pool, draws);
    ExcludeIdsMembers(catalog, IdsOf(w));
    forall k | |w| <= k < |r| ensures IncorrectOf(hs, r[k].id) == 0 {
      assert r[k] in Shuffled(pool, draws);
    }
  }

  /** With no weak history, weak-points mode gives the same list as the plain shuffle. */
  lemma WeakModeWithoutWeakHistory(catalog: seq<VitalPoint>, hs: seq<LearningHistory>, draws: seq<nat>)
    requires forall h | h in hs :: h.incorrectCount == 0
    ensures SelectItems(catalog, hs, true, draws) == SelectItems(catalog, hs, false, draws)
  {
    WeakRankingProperties(hs);
    assert multiset(WeakRanking(hs)) == multiset{};
    assert |WeakRanking(hs)| == |multiset(WeakRanking(hs))| == 0;
    assert IdsOf(WeakItems(hs)) == {};
    ExcludeNothing(catalog);
  }

  /** `enumerate(all_vital_points, start=1)`: one new question per item, ids from `firstId`. */
  function NumberQuestions(firstId: nat, items: seq<VitalPoint>): (r: seq<SessionQuestion>)
    ensures |r| == |items|
    ensures forall k :: 0 <= k < |items| ==> r[k] == NewQuestion(firstId + k, items[k], k + 1)
  {
    if items == [] then []
    else NumberQuestions(firstId, items[..|items| - 1]) + [NewQuestion(firstId + |items| - 1, items[|items| - 1], |items|)]
  }

  /**
   * The numbered questions carry the items in list order with orders 1..N,
   * distinct ids, and nothing answered yet.
   */
  lemma NumberQuestionsProperties(firstId: nat, items: seq<VitalPoint>)
    ensures OrdersUnique(NumberQuestions(firstId, items))
    ensures forall k :: 0 <= k < |items| ==>
      NumberQuestions(firstId, items)[k].vitalPoint == items[k] && NumberQuestions(firstId, items)[k].questionOrder == k + 1
    ensures forall i, j :: 0 <= i < j < |items| ==> NumberQuestions(firstId, items)[i].id != NumberQuestions(firstId, items)[j].id
    ensures forall q | q in NumberQuestions(firstId, items) :: !q.isAnswered && !q.isCorrect && q.attemptCount == 0
    ensures forall q | q in NumberQuestions(firstId, items) :: firstId <= q.id < firstId + |items|
  {
    DenseOrdersAreUnique(NumberQuestions(firstId, items));
  }

  // ---------------------------------------------------------------------
  // current_question's choices

  /** `exclude(id=correct.id).exclude(name=correct.name)` over the catalog. */
  function OtherPoints(catalog: seq<VitalPoint>, correct: VitalPoint): (r: seq<VitalPoint>)
    ensures |r| <= |catalog|
  {
    if catalog == [] then []
    else (if catalog[0].id != correct.id && catalog[0].name != correct.name then [catalog[0]] else [])
         + OtherPoints(catalog[1..], correct)
  }

  /** The distractor pool is part of the catalog and holds exactly the items differing in id and name. */
  lemma {:induction false} OtherPointsProperties(catalog: seq<VitalPoint>, correct: VitalPoint)
    ensures multiset(OtherPoints(catalog, correct)) <= multiset(catalog)
    ensures forall x :: x in OtherPoints(catalog, correct) <==>
      x in catalog && x.id != correct.id && x.name != correct.name
  {
    if catalog != [] {
      var x, rest := catalog[0], catalog[1..];
      OtherPointsProperties(rest, correct);
      assert catalog == [x] + rest;
      assert multiset(catalog) == multiset{x} + multiset(rest);
      if x.id != correct.id && x.name != correct.name {
        assert OtherPoints(catalog, correct) == [x] + OtherPoints(rest, correct);
      } else {
        assert OtherPoints(catalog, correct) == OtherPoints(rest, correct);
      }
    }
  }

  function Min(a: nat, b: nat): nat {
    if a <= b then a else b
  }

  /** `other_points[:3]` after shuffling. */
  function Distractors(catalog: seq<VitalPoint>, correct: VitalPoint, otherDraws: seq<nat>): (r: seq<VitalPoint>)
    ensures |r| == Min(3, |OtherPoints(catalog, correct)|)
  {
    var others := Shuffled(OtherPoints(catalog, correct), otherDraws);
    if |others| <= 3 then others else others[..3]
  }

  /** `[correct_answer] + wrong_answers`, shuffled. */
  function ChoiceList(catalog: seq<VitalPoint>, correct: VitalPoint, otherDraws: seq<nat>, choiceDraws: seq<nat>): seq<VitalPoint> {
    Shuffled([correct] + Distractors(catalog, correct, otherDraws), choiceDraws)
  }

  /** The distractors are distinct catalog items that differ from the correct item in id and in name. */
  lemma DistractorsProperties(catalog: seq<VitalPoint>, correct: VitalPoint, otherDraws: seq<nat>)
    requires NoDuplicates(catalog)
    ensures NoDuplicates(Distractors(catalog, correct, otherDraws))
    ensures forall x | x in Distractors(catalog, correct, otherDraws) ::
      x in catalog && x.id != correct.id && x.name != correct.name
  {
    var pool := OtherPoints(catalog, correct);
    var others := Shuffled(pool, otherDraws);
    var d := Distractors(catalog, correct, otherDraws);
    OtherPointsProperties(catalog, correct);
    ShuffledPermutes(pool, otherDraws);
    assert d == others[..|d|];
    PrefixSubMultiset(others, |d|);
    assert multiset(d) <= multiset(catalog);
    SubMultisetNoDuplicates(d, catalog);
    forall x | x in d ensures x in others {
      assert x in multiset(d);
    }
  }

  /**
   * The choices are a permutation of the correct item and min(3, |pool|)
   * distractors (so at most four entries). The correct item occurs exactly
   * once, no entry repeats, and every other entry is a catalog item with a
   * different id and a different name, so exactly one choice carries the
   * correct name.
   */
  lemma ChoiceListProperties(catalog: seq<VitalPoint>, correct: VitalPoint, otherDraws: seq<nat>, choiceDraws: seq<nat>)
    requires NoDuplicates(catalog)
    ensures |ChoiceList(catalog, correct, otherDraws, choiceDraws)| == 1 + Min(3, |OtherPoints(catalog, correct)|) <= 4
    ensures multiset(ChoiceList(catalog, correct, otherDraws, choiceDraws))
         == multiset{correct} + multiset(Distractors(catalog, correct, otherDraws))
    ensures multiset(ChoiceList(catalog, correct, otherDraws, choiceDraws))[correct] == 1
    ensures NoDuplicates(ChoiceList(catalog, correct, otherDraws, choiceDraws))
    ensures forall x | x in ChoiceList(catalog, correct, otherDraws, choiceDraws) && x != correct ::
      x in catalog && x.id != correct.id && x.name != correct.name
    ensures forall x | x in ChoiceList(catalog, correct, otherDraws, choiceDraws) :: x.name == correct.name <==> x == correct
  {
    var d := Distractors(catalog, correct, otherDraws);
    var c := [correct] + d;
    var r := ChoiceList(catalog, correct, otherDraws, choiceDraws);
    DistractorsProperties(catalog, correct, otherDraws);
    assert correct !in d;
    assert multiset(c) == multiset{correct} + multiset(d);
    assert multiset(d)[correct] == 0;
    DistinctAfterCons(correct, d);
    ShuffledPermutes(c, choiceDraws);
    assert multiset(r) == multiset(c);
    SubMultisetNoDuplicates(r, c);
    forall x | x in r && x != correct ensures x in d {
      assert x in c;
    }
  }

  /** Putting an element not in a duplicate-free list in front keeps it duplicate-free. */
  lemma DistinctAfterCons(x: VitalPoint, d: seq<VitalPoint>)
    requires NoDuplicates(d) && x !in d
    ensures NoDuplicates([x] + d)
  {
    assert multiset([x] + d) == multiset{x} + multiset(d);
    forall y | y in [x] + d ensures multiset([x] + d)[y] <= 1 {
      if y != x { assert y in d; }
    }
  }
}
