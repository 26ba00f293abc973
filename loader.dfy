/**
 * The `load_vital_points` management command
 * (backend/quiz/management/commands/load_vital_points.py): every point of
 * the parsed master data is upserted into the VitalPoint table, keyed by
 * (image file, number, name), with reading and category as the updated
 * fields. Rows are never deleted, so learning history stays attached.
 * The table is the sequence of its rows in primary-key order.
 */
module CatalogLoader {
  import opened Optional
  import opened SeqFacts
  import opened Models
  import opened EditParser

  /** The lookup fields of `update_or_create`. */
  datatype Key = Key(imageFile: string, number: string, name: string)

  function KeyOf(v: VitalPoint): Key
  {
    Key(v.imageFile, v.number, v.name)
  }

  /** One point of the input together with its image name and the image's category. */
  datatype InputRow = InputRow(imageFile: string, number: string, name: string, reading: string, category: string)

  function RowKey(r: InputRow): Key
  {
    Key(r.imageFile, r.number, r.name)
  }

  /** The rows the inner loop visits for one image, in list order. */
  function ImageRows(image: string, e: ImageEntry): (r: seq<InputRow>)
    ensures |r| == |e.points|
  {
    seq(|e.points|, j requires 0 <= j < |e.points| =>
      InputRow(image, e.points[j].number, e.points[j].name, e.points[j].reading, e.category))
  }

  /** The rows both loops visit, for the input dict's items in order. */
  function InputRows(items: seq<(string, ImageEntry)>): seq<InputRow>
  {
    if |items| == 0 then []
    else
      var last := items[|items| - 1];
      InputRows(items[..|items| - 1]) + ImageRows(last.0, last.1)
  }

  /** The number of points over all images of the input. */
  function TotalPoints(items: seq<(string, ImageEntry)>): nat
  {
    if |items| == 0 then 0
    else TotalPoints(items[..|items| - 1]) + |items[|items| - 1].1.points|
  }

  lemma {:induction false} InputRowsCount(items: seq<(string, ImageEntry)>)
    ensures |InputRows(items)| == TotalPoints(items)
  {
    if |items| > 0 {
      InputRowsCount(items[..|items| - 1]);
    }
  }

  /** The keys held by the rows of a table. */
  ghost function TableKeys(t: seq<VitalPoint>): set<Key>
  {
    set i | 0 <= i < |t| :: KeyOf(t[i])
  }

  /** The keys named by the input rows. */
  ghost function RowKeys(rows: seq<InputRow>): set<Key>
  {
    set i | 0 <= i < |rows| :: RowKey(rows[i])
  }

  /** No two rows share a key, so `update_or_create` finds at most one row. */
  ghost predicate KeysUnique(t: seq<VitalPoint>)
  {
    forall i, j | 0 <= i < j < |t| :: KeyOf(t[i]) != KeyOf(t[j])
  }

  /** The position of the first row with key `k` (the lookup of `update_or_create`). */
  function FindKey(t: seq<VitalPoint>, k: Key): (r: Option<nat>)
    ensures r.Some? ==> r.value < |t| && KeyOf(t[r.value]) == k
    ensures r.None? ==> k !in TableKeys(t)
  {
    if |t| == 0 then None
    else if KeyOf(t[0]) == k then Some(0)
    else
      match FindKey(t[1..], k)
      case Some(i) => Some(i + 1)
      case None =>
        assert forall i | 1 <= i < |t| :: t[i] == t[1..][i - 1];
        None
  }

  /** The table, the next auto-increment id and the two counters. */
  datatype LoadState = LoadState(table: seq<VitalPoint>, nextId: nat, created: nat, updated: nat)

  /**
   * `VitalPoint.objects.update_or_create(image_file, number, name,
   * defaults={reading, category})` followed by the counter increment:
   * the matching row gets the row's reading and category, or a new row
   * with the next id is appended.
   */
  function Upsert(st: LoadState, row: InputRow): (r: LoadState)
    ensures r.created + r.updated == st.created + st.updated + 1
  {
    match FindKey(st.table, RowKey(row))
    case Some(i) =>
      st.(table := st.table[i := st.table[i].(reading := row.reading, category := row.category)],
          updated := st.updated + 1)
    case None =>
      st.(table := st.table + [VitalPoint(st.nextId, row.number, row.name, row.reading, row.category, row.imageFile)],
          nextId := st.nextId + 1,
          created := st.created + 1)
  }

  /** The state after upserting `rows` in order. */
  function ApplyRows(st: LoadState, rows: seq<InputRow>): (r: LoadState)
    ensures r.created + r.updated == st.created + st.updated + |rows|
  {
    if |rows| == 0 then st
    else Upsert(ApplyRows(st, rows[..|rows| - 1]), rows[|rows| - 1])
  }

  /** Upserting one more row is one more step of the fold. */
  lemma ApplyRowsSnoc(st: LoadState, rows: seq<InputRow>, x: InputRow)
    ensures ApplyRows(st, rows + [x]) == Upsert(ApplyRows(st, rows), x)
  {
    assert (rows + [x])[..|rows|] == rows;
  }

  /** Upserting two runs of rows one after the other is upserting their concatenation. */
  lemma {:induction false} ApplyRowsAppend(st: LoadState, a: seq<InputRow>, b: seq<InputRow>)
    ensures ApplyRows(st, a + b) == ApplyRows(ApplyRows(st, a), b)
    decreases |b|
  {
    if |b| == 0 {
      assert a + b == a;
    } else {
      var ab, front, x := a + b, b[..|b| - 1], b[|b| - 1];
      assert ab[..|ab| - 1] == a + front && ab[|ab| - 1] == x;
      calc {
        ApplyRows(st, ab);
        Upsert(ApplyRows(st, a + front), x);
        { ApplyRowsAppend(st, a, front); }
        Upsert(ApplyRows(ApplyRows(st, a), front), x);
        ApplyRows(ApplyRows(st, a), b);
      }
    }
  }

  /** The inner loop of `Command.handle`: upsert every point of one image. */
  method LoadImage(table0: seq<VitalPoint>, nextId0: nat, created0: nat, updated0: nat,
                   imageName: string, imageData: ImageEntry)
    returns (table: seq<VitalPoint>, nextId: nat, created: nat, updated: nat)
    ensures LoadState(table, nextId, created, updated)
         == ApplyRows(LoadState(table0, nextId0, created0, updated0), ImageRows(imageName, imageData))
  {
    ghost var init := LoadState(table0, nextId0, created0, updated0);
    ghost var rows := ImageRows(imageName, imageData);
    table, nextId, created, updated := table0, nextId0, created0, updated0;
    var category := imageData.category;
    for j := 0 to |imageData.points|
      invariant LoadState(table, nextId, created, updated) == ApplyRows(init, rows[..j])
    {
      var point := imageData.points[j];
      ghost var before := LoadState(table, nextId, created, updated);
      assert rows[j] == InputRow(imageName, point.number, point.name, point.reading, category);
      var found := FindKey(table, Key(imageName, point.number, point.name));
      if found.Some? {
        var idx := found.value;
        table := table[idx := table[idx].(reading := point.reading, category := category)];
        updated := updated + 1;
      } else {
        table := table + [VitalPoint(nextId, point.number, point.name, point.reading, category, imageName)];
        nextId := nextId + 1;
        created := created + 1;
      }
      assert LoadState(table, nextId, created, updated) == Upsert(before, rows[j]);
      assert rows[..j + 1] == rows[..j] + [rows[j]];
      ApplyRowsSnoc(init, rows[..j], rows[j]);
    }
    assert rows[..|rows|] == rows;
  }

  /** `Command.handle` over already-parsed input: every image in order, counting creations and updates. */
  method Handle(table0: seq<VitalPoint>, nextId0: nat, items: seq<(string, ImageEntry)>)
    returns (table: seq<VitalPoint>, nextId: nat, created: nat, updated: nat)
    ensures LoadState(table, nextId, created, updated)
         == ApplyRows(LoadState(table0, nextId0, 0, 0), InputRows(items))
  {
    ghost var init := LoadState(table0, nextId0, 0, 0);
    table, nextId, created, updated := table0, nextId0, 0, 0;
    for i := 0 to |items|
      invariant LoadState(table, nextId, created, updated) == ApplyRows(init, InputRows(items[..i]))
    {
      ghost var done := InputRows(items[..i]);
      table, nextId, created, updated := LoadImage(table, nextId, created, updated, items[i].0, items[i].1);
      assert items[..i + 1][..i] == items[..i];
      assert InputRows(items[..i + 1]) == done + ImageRows(items[i].0, items[i].1);
      ApplyRowsAppend(init, done, ImageRows(items[i].0, items[i].1));
    }
    assert items[..|items|] == items;
  }

  // ---------------------------------------------------------------------
  // Properties
  // ---------------------------------------------------------------------

  /** The last input row with key `k`, if any: its values are the ones that stick. */
  function LastFor(rows: seq<InputRow>, k: Key): (r: Option<InputRow>)
    ensures r.Some? ==> RowKey(r.value) == k
  {
    if |rows| == 0 then None
    else if RowKey(rows[|rows| - 1]) == k then Some(rows[|rows| - 1])
    else LastFor(rows[..|rows| - 1], k)
  }

  lemma LastForSnoc(rows: seq<InputRow>, x: InputRow, k: Key)
    ensures LastFor(rows + [x], k) == if k == RowKey(x) then Some(x) else LastFor(rows, k)
  {
    assert (rows + [x])[..|rows|] == rows;
  }

  lemma RowKeysSnoc(rows: seq<InputRow>, x: InputRow)
    ensures RowKeys(rows + [x]) == RowKeys(rows) + {RowKey(x)}
  {
    var s := rows + [x];
    forall k | k in RowKeys(s) ensures k in RowKeys(rows) + {RowKey(x)} {
      var i :| 0 <= i < |s| && RowKey(s[i]) == k;
      if i < |rows| {
        assert s[i] == rows[i];
      }
    }
    forall k | k in RowKeys(rows) ensures k in RowKeys(s) {
      var i :| 0 <= i < |rows| && RowKey(rows[i]) == k;
      assert s[i] == rows[i];
    }
    assert s[|rows|] == x;
  }

  lemma {:induction false} LastForFound(rows: seq<InputRow>, k: Key)
    ensures LastFor(rows, k).Some? <==> k in RowKeys(rows)
  {
    if |rows| > 0 {
      var front, x := rows[..|rows| - 1], rows[|rows| - 1];
      LastForFound(front, k);
      assert rows == front + [x];
      RowKeysSnoc(front, x);
    }
  }

  /** A row with reading and category taken from `o`, when there is one. */
  function Updated(v: VitalPoint, o: Option<InputRow>): VitalPoint
  {
    match o
    case None => v
    case Some(x) => v.(reading := x.reading, category := x.category)
  }

  /** Every old row keeps its place and carries the values of the last input row with its key. */
  ghost predicate OldRowsSettled(t0: seq<VitalPoint>, rows: seq<InputRow>, t: seq<VitalPoint>)
  {
    && |t0| <= |t|
    && forall j | 0 <= j < |t0| :: t[j] == Updated(t0[j], LastFor(rows, KeyOf(t0[j])))
  }

  /** Every appended row has the next id in turn and the values of the last input row with its key. */
  ghost predicate NewRowsSettled(t0: seq<VitalPoint>, nextId0: nat, rows: seq<InputRow>, t: seq<VitalPoint>)
  {
    forall j | |t0| <= j < |t| ::
      && t[j].id == nextId0 + (j - |t0|)
      && t[j] == Updated(t[j], LastFor(rows, KeyOf(t[j])))
  }

  /** The table's keys are the old keys together with the input keys. */
  ghost predicate KeysCovered(t0: seq<VitalPoint>, rows: seq<InputRow>, t: seq<VitalPoint>)
  {
    TableKeys(t) == TableKeys(t0) + RowKeys(rows)
  }

  /** One row was appended, one id used and one creation counted per new key. */
  ghost predicate CountersAgree(st0: LoadState, rows: seq<InputRow>, r: LoadState)
  {
    var added := |r.table| - |st0.table|;
    && r.nextId == st0.nextId + added
    && r.created == st0.created + added
    && added == |RowKeys(rows) - TableKeys(st0.table)|
  }

  /**
   * What upserting `rows` into the table of `st0` leads to, as a relation
   * between `st0` and the result `r`: keys stay unique, old rows are
   * settled in place, appended rows are settled and numbered in turn, the
   * keys are the old ones plus the input's, and the counters agree.
   */
  ghost predicate Loaded(st0: LoadState, rows: seq<InputRow>, r: LoadState)
  {
    && KeysUnique(r.table)
    && OldRowsSettled(st0.table, rows, r.table)
    && NewRowsSettled(st0.table, st0.nextId, rows, r.table)
    && KeysCovered(st0.table, rows, r.table)
    && |st0.table| <= |r.table|
    && CountersAgree(st0, rows, r)
  }

  lemma LoadedStart(st0: LoadState)
    requires KeysUnique(st0.table)
    ensures Loaded(st0, [], st0)
  {
    assert RowKeys([]) == {};
  }

  /** Changing reading and category leaves every key, and so the key set, as it was. */
  lemma UpdateKeepsKeys(t: seq<VitalPoint>, i: nat, x: InputRow)
    requires i < |t|
    ensures var t' := t[i := Updated(t[i], Some(x))];
      && (forall j | 0 <= j < |t| :: KeyOf(t'[j]) == KeyOf(t[j]))
      && TableKeys(t') == TableKeys(t)
      && (KeysUnique(t) ==> KeysUnique(t'))
  {
    var t' := t[i := Updated(t[i], Some(x))];
    assert forall j | 0 <= j < |t| :: KeyOf(t'[j]) == KeyOf(t[j]);
    forall k | k in TableKeys(t) ensures k in TableKeys(t') {
      var j :| 0 <= j < |t| && KeyOf(t[j]) == k;
      assert KeyOf(t'[j]) == k;
    }
  }

  /** Appending a row adds its key to the key set; a new key keeps keys unique. */
  lemma AppendKeys(t: seq<VitalPoint>, v: VitalPoint)
    ensures TableKeys(t + [v]) == TableKeys(t) + {KeyOf(v)}
    ensures KeysUnique(t) && KeyOf(v) !in TableKeys(t) ==> KeysUnique(t + [v])
  {
    var t' := t + [v];
    forall k | k in TableKeys(t') ensures k in TableKeys(t) + {KeyOf(v)} {
      var j :| 0 <= j < |t'| && KeyOf(t'[j]) == k;
      if j < |t| {
        assert KeyOf(t[j]) == k;
      }
    }
    forall k | k in TableKeys(t) ensures k in TableKeys(t') {
      var j :| 0 <= j < |t| && KeyOf(t[j]) == k;
      assert KeyOf(t'[j]) == k;
    }
    assert KeyOf(t'[|t|]) == KeyOf(v);
    if KeysUnique(t) && KeyOf(v) !in TableKeys(t) {
      forall i, j | 0 <= i < j < |t'| ensures KeyOf(t'[i]) != KeyOf(t'[j]) {
        if j == |t| {
          assert KeyOf(t[i]) in TableKeys(t);
        }
      }
    }
  }

  /** An appended row holds none of the old keys. */
  lemma NewRowKeyIsNew(t0: seq<VitalPoint>, rows: seq<InputRow>, t: seq<VitalPoint>, j: nat)
    requires KeysUnique(t) && OldRowsSettled(t0, rows, t)
    requires |t0| <= j < |t|
    ensures KeyOf(t[j]) !in TableKeys(t0)
  {
  }

  /** Upserting a row whose key is present settles the old rows again. */
  lemma UpdateSettlesOld(t0: seq<VitalPoint>, rows: seq<InputRow>, t: seq<VitalPoint>, x: InputRow, i: nat)
    requires KeysUnique(t) && OldRowsSettled(t0, rows, t)
    requires i < |t| && KeyOf(t[i]) == RowKey(x)
    ensures OldRowsSettled(t0, rows + [x], t[i := Updated(t[i], Some(x))])
  {
    var t' := t[i := Updated(t[i], Some(x))];
    forall j | 0 <= j < |t0|
      ensures t'[j] == Updated(t0[j], LastFor(rows + [x], KeyOf(t0[j])))
    {
      LastForSnoc(rows, x, KeyOf(t0[j]));
      assert KeyOf(t[j]) == KeyOf(t0[j]);
    }
  }

  /** Upserting a row whose key is present settles the appended rows again. */
  lemma UpdateSettlesNew(t0: seq<VitalPoint>, nextId0: nat, rows: seq<InputRow>, t: seq<VitalPoint>, x: InputRow, i: nat)
    requires KeysUnique(t) && NewRowsSettled(t0, nextId0, rows, t)
    requires i < |t| && KeyOf(t[i]) == RowKey(x)
    ensures NewRowsSettled(t0, nextId0, rows + [x], t[i := Updated(t[i], Some(x))])
  {
    var t' := t[i := Updated(t[i], Some(x))];
    forall j | |t0| <= j < |t'|
      ensures t'[j].id == nextId0 + (j - |t0|)
      ensures t'[j] == Updated(t'[j], LastFor(rows + [x], KeyOf(t'[j])))
    {
      LastForSnoc(rows, x, KeyOf(t'[j]));
    }
  }

  /** Upserting a row whose key is present keeps the invariant. */
  lemma LoadedUpdate(st0: LoadState, rows: seq<InputRow>, r: LoadState, x: InputRow, i: nat)
    requires Loaded(st0, rows, r)
    requires i < |r.table| && KeyOf(r.table[i]) == RowKey(x)
    ensures Loaded(st0, rows + [x],
      r.(table := r.table[i := Updated(r.table[i], Some(x))], updated := r.updated + 1))
  {
    var t := r.table;
    var t' := t[i := Updated(t[i], Some(x))];
    var rows' := rows + [x];
    assert TableKeys(t') == TableKeys(t) && KeysUnique(t') by {
      UpdateKeepsKeys(t, i, x);
    }
    assert OldRowsSettled(st0.table, rows', t') by {
      UpdateSettlesOld(st0.table, rows, t, x, i);
    }
    assert NewRowsSettled(st0.table, st0.nextId, rows', t') by {
      UpdateSettlesNew(st0.table, st0.nextId, rows, t, x, i);
    }
    assert RowKeys(rows') - TableKeys(st0.table) == RowKeys(rows) - TableKeys(st0.table)
        && TableKeys(t) == TableKeys(st0.table) + RowKeys(rows') by {
      RowKeysSnoc(rows, x);
      assert RowKey(x) in TableKeys(t);
    }
  }

  /** Upserting a row whose key is absent settles the old rows again. */
  lemma CreateSettlesOld(t0: seq<VitalPoint>, rows: seq<InputRow>, t: seq<VitalPoint>, x: InputRow, v: VitalPoint)
    requires OldRowsSettled(t0, rows, t)
    requires RowKey(x) !in TableKeys(t)
    ensures OldRowsSettled(t0, rows + [x], t + [v])
  {
    forall j | 0 <= j < |t0|
      ensures (t + [v])[j] == Updated(t0[j], LastFor(rows + [x], KeyOf(t0[j])))
    {
      LastForSnoc(rows, x, KeyOf(t0[j]));
      assert KeyOf(t[j]) == KeyOf(t0[j]);
      assert KeyOf(t[j]) in TableKeys(t);
    }
  }

  /** Upserting a row whose key is absent settles the appended rows, the new one included. */
  lemma CreateSettlesNew(t0: seq<VitalPoint>, nextId0: nat, rows: seq<InputRow>, t: seq<VitalPoint>, nextId: nat, x: InputRow)
    requires NewRowsSettled(t0, nextId0, rows, t)
    requires |t0| <= |t| && nextId == nextId0 + (|t| - |t0|)
    requires RowKey(x) !in TableKeys(t)
    ensures NewRowsSettled(t0, nextId0, rows + [x],
      t + [VitalPoint(nextId, x.number, x.name, x.reading, x.category, x.imageFile)])
  {
    var v := VitalPoint(nextId, x.number, x.name, x.reading, x.category, x.imageFile);
    var t' := t + [v];
    forall j | |t0| <= j < |t'|
      ensures t'[j].id == nextId0 + (j - |t0|)
      ensures t'[j] == Updated(t'[j], LastFor(rows + [x], KeyOf(t'[j])))
    {
      LastForSnoc(rows, x, KeyOf(t'[j]));
      if j < |t| {
        assert KeyOf(t[j]) in TableKeys(t);
      }
    }
  }

  /** Upserting a row whose key is absent keeps the invariant. */
  lemma LoadedCreate(st0: LoadState, rows: seq<InputRow>, r: LoadState, x: InputRow)
    requires Loaded(st0, rows, r)
    requires RowKey(x) !in TableKeys(r.table)
    ensures Loaded(st0, rows + [x],
      r.(table := r.table + [VitalPoint(r.nextId, x.number, x.name, x.reading, x.category, x.imageFile)],
         nextId := r.nextId + 1, created := r.created + 1))
  {
    var t := r.table;
    var v := VitalPoint(r.nextId, x.number, x.name, x.reading, x.category, x.imageFile);
    assert KeyOf(v) == RowKey(x);
    var rows', t' := rows + [x], t + [v];
    assert KeysUnique(t') by {
      AppendKeys(t, v);
    }
    assert OldRowsSettled(st0.table, rows', t') by {
      CreateSettlesOld(st0.table, rows, t, x, v);
    }
    assert NewRowsSettled(st0.table, st0.nextId, rows', t') by {
      CreateSettlesNew(st0.table, st0.nextId, rows, t, r.nextId, x);
    }
    assert KeysCovered(st0.table, rows', t')
        && |RowKeys(rows') - TableKeys(st0.table)| == |RowKeys(rows) - TableKeys(st0.table)| + 1 by {
      CreateCounts(st0.table, rows, t, x, v);
    }
  }

  /** A key that is absent after the upserts so far is a new key, and the set of new keys grows by one. */
  lemma CreateCounts(t0: seq<VitalPoint>, rows: seq<InputRow>, t: seq<VitalPoint>, x: InputRow, v: VitalPoint)
    requires KeysCovered(t0, rows, t)
    requires RowKey(x) !in TableKeys(t) && KeyOf(v) == RowKey(x)
    ensures KeysCovered(t0, rows + [x], t + [v])
    ensures |RowKeys(rows + [x]) - TableKeys(t0)| == |RowKeys(rows) - TableKeys(t0)| + 1
  {
    var k := RowKey(x);
    RowKeysSnoc(rows, x);
    AppendKeys(t, v);
    var newKeys := RowKeys(rows) - TableKeys(t0);
    assert RowKeys(rows + [x]) - TableKeys(t0) == newKeys + {k};
  }

  /** One more upsert keeps the invariant, whichever way `update_or_create` goes. */
  lemma LoadedStep(st0: LoadState, rows: seq<InputRow>, r: LoadState, x: InputRow)
    requires Loaded(st0, rows, r)
    ensures Loaded(st0, rows + [x], Upsert(r, x))
  {
    match FindKey(r.table, RowKey(x))
    case Some(i) =>
      LoadedUpdate(st0, rows, r, x, i);
    case None => LoadedCreate(st0, rows, r, x);
  }

  lemma {:induction false} LoadedRun(st0: LoadState, rows: seq<InputRow>)
    requires KeysUnique(st0.table)
    ensures Loaded(st0, rows, ApplyRows(st0, rows))
  {
    if |rows| == 0 {
      LoadedStart(st0);
    } else {
      var front, x := rows[..|rows| - 1], rows[|rows| - 1];
      LoadedRun(st0, front);
      LoadedStep(st0, front, ApplyRows(st0, front), x);
      assert rows == front + [x];
    }
  }

  /** An initial table the loader may run on: keys unique, ids fresh, counters at zero. */
  ghost predicate StartState(st0: LoadState)
  {
    && KeysUnique(st0.table)
    && (forall i, j | 0 <= i < j < |st0.table| :: st0.table[i].id != st0.table[j].id)
    && (forall i | 0 <= i < |st0.table| :: st0.table[i].id < st0.nextId)
    && st0.created == 0 && st0.updated == 0
  }

  /** `created_count + updated_count` is the number of points in the input. */
  lemma CountsMatchInput(st0: LoadState, items: seq<(string, ImageEntry)>)
    requires st0.created == 0 && st0.updated == 0
    ensures var r := ApplyRows(st0, InputRows(items));
      r.created + r.updated == TotalPoints(items)
  {
    InputRowsCount(items);
  }

  /**
   * After the run each input key is held by exactly one row, and that row
   * carries the reading and category of the last input row with the key.
   */
  lemma LastValueWins(st0: LoadState, rows: seq<InputRow>, k: Key)
    requires StartState(st0)
    requires k in RowKeys(rows)
    ensures var t := ApplyRows(st0, rows).table; var found := FindKey(t, k);
      && found.Some?
      && (forall j | 0 <= j < |t| && KeyOf(t[j]) == k :: j == found.value)
      && LastFor(rows, k).Some?
      && t[found.value].reading == LastFor(rows, k).value.reading
      && t[found.value].category == LastFor(rows, k).value.category
  {
    LoadedRun(st0, rows);
    LastForFound(rows, k);
    var t := ApplyRows(st0, rows).table;
    assert k in TableKeys(t);
    var i := FindKey(t, k).value;
    if i < |st0.table| {
      assert KeyOf(t[i]) == KeyOf(st0.table[i]);
    }
  }

  /**
   * Nothing is deleted: every old row keeps its position, id and key; a row
   * whose key no input row names is left exactly as it was.
   */
  lemma NothingDeleted(st0: LoadState, rows: seq<InputRow>)
    requires StartState(st0)
    ensures var t := ApplyRows(st0, rows).table;
      && |st0.table| <= |t|
      && (forall j | 0 <= j < |st0.table| :: t[j].id == st0.table[j].id && KeyOf(t[j]) == KeyOf(st0.table[j]))
      && (forall j | 0 <= j < |st0.table| && KeyOf(st0.table[j]) !in RowKeys(rows) :: t[j] == st0.table[j])
  {
    LoadedRun(st0, rows);
    forall j | 0 <= j < |st0.table| && KeyOf(st0.table[j]) !in RowKeys(rows)
      ensures LastFor(rows, KeyOf(st0.table[j])).None?
    {
      LastForFound(rows, KeyOf(st0.table[j]));
    }
  }

  /**
   * `created_count` is the number of distinct input keys the table did not
   * hold; one row was appended and one id used for each, and each appended
   * row holds such a key.
   */
  lemma CreatedCountsNewKeys(st0: LoadState, rows: seq<InputRow>)
    requires StartState(st0)
    ensures var r := ApplyRows(st0, rows);
      && r.created == |RowKeys(rows) - TableKeys(st0.table)|
      && |r.table| == |st0.table| + r.created
      && r.nextId == st0.nextId + r.created
      && (forall j | |st0.table| <= j < |r.table| ::
            KeyOf(r.table[j]) in RowKeys(rows) - TableKeys(st0.table))
  {
    LoadedRun(st0, rows);
    var t := ApplyRows(st0, rows).table;
    forall j | |st0.table| <= j < |t|
      ensures KeyOf(t[j]) in RowKeys(rows) - TableKeys(st0.table)
    {
      NewRowKeyIsNew(st0.table, rows, t, j);
      assert KeyOf(t[j]) in TableKeys(t);
    }
  }

  /** No two rows of the loaded table share a primary key. */
  lemma LoadedIdsDistinct(st0: LoadState, rows: seq<InputRow>)
    requires StartState(st0)
    ensures forall i, j | 0 <= i < j < |ApplyRows(st0, rows).table| ::
      ApplyRows(st0, rows).table[i].id != ApplyRows(st0, rows).table[j].id
  {
    LoadedRun(st0, rows);
    var t := ApplyRows(st0, rows).table;
    var t0 := st0.table;
    assert forall i | 0 <= i < |t0| :: t[i].id == t0[i].id;
    forall i, j | 0 <= i < j < |t| ensures t[i].id != t[j].id {
      if j < |t0| {
        assert t0[i].id != t0[j].id;
      } else if i < |t0| {
        assert t0[i].id < st0.nextId;
      }
    }
  }

  /** A table whose rows have pairwise different ids is a valid catalog. */
  lemma IdsDistinctCatalog(t: seq<VitalPoint>)
    requires forall i, j | 0 <= i < j < |t| :: t[i].id != t[j].id
    ensures CatalogIdsDistinct(t)
  {
    assert forall i, j :: 0 <= i < j < |t| ==> t[i] != t[j];
    DistinctHasNoDuplicates(t);
    forall x, y | x in t && y in t && x.id == y.id ensures x == y {
      var i :| 0 <= i < |t| && t[i] == x;
      var j :| 0 <= j < |t| && t[j] == y;
      assert !(i < j) && !(j < i);
    }
  }

  /** The loaded table is a valid catalog: no duplicate rows, no two rows share an id. */
  lemma LoadedCatalogValid(st0: LoadState, rows: seq<InputRow>)
    requires StartState(st0)
    ensures CatalogIdsDistinct(ApplyRows(st0, rows).table)
  {
    LoadedIdsDistinct(st0, rows);
    IdsDistinctCatalog(ApplyRows(st0, rows).table);
  }

  /** A key-unique table in which every key is named by the input, and every row settled, is a fixpoint. */
  lemma SettledIsFixpoint(t: seq<VitalPoint>, nextId: nat, rows: seq<InputRow>)
    requires KeysUnique(t)
    requires RowKeys(rows) <= TableKeys(t)
    requires forall j | 0 <= j < |t| :: t[j] == Updated(t[j], LastFor(rows, KeyOf(t[j])))
    ensures var again := ApplyRows(LoadState(t, nextId, 0, 0), rows);
      again == LoadState(t, nextId, 0, |rows|)
  {
    var st1 := LoadState(t, nextId, 0, 0);
    LoadedRun(st1, rows);
    var again := ApplyRows(st1, rows);
    assert RowKeys(rows) - TableKeys(t) == {};
    forall j | 0 <= j < |t| ensures again.table[j] == t[j] {
      Updated2(t[j], LastFor(rows, KeyOf(t[j])));
    }
  }

  lemma Updated2(v: VitalPoint, o: Option<InputRow>)
    ensures Updated(Updated(v, o), o) == Updated(v, o)
  {
  }

  /**
   * Running the loader a second time on the same input creates nothing and
   * leaves the table as the first run left it; every point counts as updated.
   */
  lemma RerunIsStable(st0: LoadState, rows: seq<InputRow>)
    requires StartState(st0)
    ensures var r := ApplyRows(st0, rows);
      ApplyRows(LoadState(r.table, r.nextId, 0, 0), rows) == LoadState(r.table, r.nextId, 0, |rows|)
  {
    var r := ApplyRows(st0, rows);
    LoadedRun(st0, rows);
    var t := r.table;
    forall j | 0 <= j < |t| ensures t[j] == Updated(t[j], LastFor(rows, KeyOf(t[j]))) {
      if j < |st0.table| {
        assert KeyOf(t[j]) == KeyOf(st0.table[j]);
        Updated2(st0.table[j], LastFor(rows, KeyOf(st0.table[j])));
      }
    }
    SettledIsFixpoint(t, r.nextId, rows);
  }
}
