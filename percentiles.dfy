/**
 * Grouped percentile ranks. Within each group of rows that agree on the
 * grouping columns (a null key is a key like any other, so null-keyed rows
 * form their own group), a metric value's percentile is its average rank
 * among the group's non-null values, divided by their count, times 100.
 */
module Percentiles {
  import opened Tables

  type Keys = seq<seq<Cell>>

  /** Rows among the first `n` in group `k` with a numeric value. */
  function Present(keys: Keys, vals: seq<Cell>, k: seq<Cell>, n: nat): (c: nat)
    requires n <= |keys| == |vals|
    ensures c <= n
  {
    if n == 0 then 0
    else Present(keys, vals, k, n - 1) + (if keys[n - 1] == k && vals[n - 1].Num? then 1 else 0)
  }

  /** Rows among the first `n` in group `k` whose value is below `v`. */
  function Below(keys: Keys, vals: seq<Cell>, k: seq<Cell>, v: real, n: nat): (c: nat)
    requires n <= |keys| == |vals|
    ensures c <= n
  {
    if n == 0 then 0
    else Below(keys, vals, k, v, n - 1) + (if keys[n - 1] == k && vals[n - 1].Num? && vals[n - 1].x < v then 1 else 0)
  }

  /** Rows among the first `n` in group `k` whose value equals `v`. */
  function Equal(keys: Keys, vals: seq<Cell>, k: seq<Cell>, v: real, n: nat): (c: nat)
    requires n <= |keys| == |vals|
    ensures c <= n
  {
    if n == 0 then 0
    else Equal(keys, vals, k, v, n - 1) + (if keys[n - 1] == k && vals[n - 1].Num? && vals[n - 1].x == v then 1 else 0)
  }

  lemma {:induction false} BelowEqualWithinPresent(keys: Keys, vals: seq<Cell>, k: seq<Cell>, v: real, n: nat)
    requires n <= |keys| == |vals|
    ensures Below(keys, vals, k, v, n) + Equal(keys, vals, k, v, n) <= Present(keys, vals, k, n)
  {
    if n > 0 {
      BelowEqualWithinPresent(keys, vals, k, v, n - 1);
    }
  }

  /** A present row counts itself among the values equal to its own. */
  lemma {:induction false} EqualSelf(keys: Keys, vals: seq<Cell>, i: nat, n: nat)
    requires n <= |keys| == |vals|
    requires i < n && vals[i].Num?
    ensures Equal(keys, vals, keys[i], vals[i].x, n) >= 1
  {
    if i < n - 1 {
      EqualSelf(keys, vals, i, n - 1);
    }
  }

  /** Everything below or equal to `a` is below any larger `b`. */
  lemma {:induction false} BelowGrows(keys: Keys, vals: seq<Cell>, k: seq<Cell>, a: real, b: real, n: nat)
    requires n <= |keys| == |vals|
    requires a < b
    ensures Below(keys, vals, k, b, n) >= Below(keys, vals, k, a, n) + Equal(keys, vals, k, a, n)
  {
    if n > 0 {
      BelowGrows(keys, vals, k, a, b, n - 1);
    }
  }

  /** When row `i` strictly exceeds every other present row of its group. */
  lemma {:induction false} UniqueTopCounts(keys: Keys, vals: seq<Cell>, i: nat, n: nat)
    requires n <= |keys| == |vals|
    requires i < |keys| && vals[i].Num?
    requires forall j :: 0 <= j < |keys| && j != i && keys[j] == keys[i] && vals[j].Num? ==> vals[j].x < vals[i].x
    ensures Equal(keys, vals, keys[i], vals[i].x, n) == if i < n then 1 else 0
    ensures Below(keys, vals, keys[i], vals[i].x, n) + Equal(keys, vals, keys[i], vals[i].x, n) == Present(keys, vals, keys[i], n)
  {
    if n > 0 {
      UniqueTopCounts(keys, vals, i, n - 1);
    }
  }

  /** Counting the first `n` rows ignores whatever is appended after them. */
  lemma {:induction false} CountsPrefix(keys: Keys, vals: seq<Cell>, more: Keys, moreVals: seq<Cell>, k: seq<Cell>, v: real, n: nat)
    requires n <= |keys| == |vals| && |more| == |moreVals|
    ensures Present(keys + more, vals + moreVals, k, n) == Present(keys, vals, k, n)
    ensures Below(keys + more, vals + moreVals, k, v, n) == Below(keys, vals, k, v, n)
    ensures Equal(keys + more, vals + moreVals, k, v, n) == Equal(keys, vals, k, v, n)
  {
    if n > 0 {
      CountsPrefix(keys, vals, more, moreVals, k, v, n - 1);
      assert (keys + more)[n - 1] == keys[n - 1] && (vals + moreVals)[n - 1] == vals[n - 1];
    }
  }

  /**
   * `s.rank(pct=True, method="average") * 100` evaluated for row `i` within
   * its group: null for a null value, otherwise in (0, 100].
   */
  function Pct(keys: Keys, vals: seq<Cell>, i: nat): (r: Cell)
    requires |keys| == |vals| && i < |keys|
    ensures r.Num? <==> vals[i].Num?
    ensures r.Null? <==> !vals[i].Num?
    ensures r.Num? ==> 0.0 < r.x <= 100.0
  {
    if !vals[i].Num? then Null
    else
      var n := |keys|;
      var v := vals[i].x;
      var total := Present(keys, vals, keys[i], n);
      var less := Below(keys, vals, keys[i], v, n);
      var eq := Equal(keys, vals, keys[i], v, n);
      EqualSelf(keys, vals, i, n);
      BelowEqualWithinPresent(keys, vals, keys[i], v, n);
      var avgRank := less as real + (eq as real + 1.0) / 2.0;
      assert 0.0 < avgRank <= total as real;
      RatioPercent(avgRank, total as real);
      Num(avgRank / total as real * 100.0)
  }

  lemma RatioPercent(x: real, n: real)
    requires 0.0 < x <= n
    ensures 0.0 < x / n * 100.0 <= 100.0
  {
    assert x / n <= 1.0;
  }

  /** Scaling an average rank by a positive group size keeps strict order. */
  lemma ScaleMonotone(x: real, y: real, n: real)
    requires 0.0 < n && x < y
    ensures x / n * 100.0 < y / n * 100.0
  {
    assert x / n < y / n;
  }

  /** Tied values in the same group get the same percentile. */
  lemma PctTies(keys: Keys, vals: seq<Cell>, i: nat, j: nat)
    requires |keys| == |vals| && i < |keys| && j < |keys|
    requires keys[i] == keys[j] && vals[i] == vals[j]
    ensures Pct(keys, vals, i) == Pct(keys, vals, j)
  {
  }

  /** Within a group, a strictly smaller value gets a strictly smaller percentile. */
  lemma PctMonotone(keys: Keys, vals: seq<Cell>, i: nat, j: nat)
    requires |keys| == |vals| && i < |keys| && j < |keys|
    requires keys[i] == keys[j] && vals[i].Num? && vals[j].Num? && vals[i].x < vals[j].x
    ensures Pct(keys, vals, i).x < Pct(keys, vals, j).x
  {
    var n := |keys|;
    var k := keys[i];
    var a, b := vals[i].x, vals[j].x;
    BelowGrows(keys, vals, k, a, b, n);
    EqualSelf(keys, vals, i, n);
    EqualSelf(keys, vals, j, n);
    var la, ea := Below(keys, vals, k, a, n), Equal(keys, vals, k, a, n);
    var lb, eb := Below(keys, vals, k, b, n), Equal(keys, vals, k, b, n);
    var total := Present(keys, vals, k, n);
    BelowEqualWithinPresent(keys, vals, k, a, n);
    ScaleMonotone(la as real + (ea as real + 1.0) / 2.0, lb as real + (eb as real + 1.0) / 2.0, total as real);
  }

  /** A value that is the unique maximum of its group gets exactly 100. */
  lemma PctUniqueMax(keys: Keys, vals: seq<Cell>, i: nat)
    requires |keys| == |vals| && i < |keys| && vals[i].Num?
    requires forall j :: 0 <= j < |keys| && j != i && keys[j] == keys[i] && vals[j].Num? ==> vals[j].x < vals[i].x
    ensures Pct(keys, vals, i) == Num(100.0)
  {
    var n, k, v := |keys|, keys[i], vals[i].x;
    UniqueTopCounts(keys, vals, i, n);
    var total := Present(keys, vals, k, n);
    var less := Below(keys, vals, k, v, n);
    assert Equal(keys, vals, k, v, n) == 1;
    var avgRank := less as real + (1 as real + 1.0) / 2.0;
    assert avgRank == total as real;
    assert Pct(keys, vals, i) == Num(avgRank / total as real * 100.0);
    WholeRatio(total as real);
  }

  lemma WholeRatio(x: real)
    requires x > 0.0
    ensures x / x * 100.0 == 100.0
  {
  }

  /**
   * A row's percentile depends only on its own group's non-null values:
   * adding a row of another group, or a row with a null value, changes nothing.
   */
  lemma PctLocal(keys: Keys, vals: seq<Cell>, i: nat, k: seq<Cell>, c: Cell)
    requires |keys| == |vals| && i < |keys|
    requires k != keys[i] || !c.Num?
    ensures Pct(keys + [k], vals + [c], i) == Pct(keys, vals, i)
  {
    if vals[i].Num? {
      var keys', vals' := keys + [k], vals + [c];
      var v := vals[i].x;
      CountsPrefix(keys, vals, [k], [c], keys[i], v, |keys|);
      assert keys'[i] == keys[i] && vals'[i] == vals[i];
      assert keys'[|keys|] == k && vals'[|keys|] == c;
      assert Present(keys', vals', keys[i], |keys'|) == Present(keys, vals, keys[i], |keys|);
      assert Below(keys', vals', keys[i], v, |keys'|) == Below(keys, vals, keys[i], v, |keys|);
      assert Equal(keys', vals', keys[i], v, |keys'|) == Equal(keys, vals, keys[i], v, |keys|);
    }
  }

  /** The whole percentile column. */
  function PctColumn(keys: Keys, vals: seq<Cell>): (r: seq<Cell>)
    requires |keys| == |vals|
    ensures |r| == |vals|
    ensures forall i :: 0 <= i < |r| ==> r[i] == Pct(keys, vals, i)
  {
    seq(|vals|, i requires 0 <= i < |vals| => Pct(keys, vals, i))
  }

  /** The group-key tuple of row `i`. */
  function GroupKey(t: Table, i: int, groupCols: seq<string>): (r: seq<Cell>)
    ensures |r| == |groupCols|
    ensures forall k :: 0 <= k < |groupCols| ==> r[k] == Get(t, i, groupCols[k])
  {
    seq(|groupCols|, k requires 0 <= k < |groupCols| => Get(t, i, groupCols[k]))
  }

  function GroupKeys(t: Table, groupCols: seq<string>): (r: Keys)
    ensures |r| == |t.rows|
    ensures forall i :: 0 <= i < |r| ==> r[i] == GroupKey(t, i, groupCols)
  {
    seq(|t.rows|, i requires 0 <= i < |t.rows| => GroupKey(t, i, groupCols))
  }

  function PctName(c: string): string {
    "pct_" + c
  }

  lemma PctNameInjective(a: string, b: string)
    requires PctName(a) == PctName(b)
    ensures a == b
  {
    assert a == PctName(a)[4..] && b == PctName(b)[4..];
  }

  /** One iteration: `out[f"pct_{col}"] = out.groupby(group_cols, dropna=False)[col].transform(rank)`. */
  function PercentileStep(t: Table, col: string, groupCols: seq<string>): (r: Result<Table>)
    requires t.Shaped()
    ensures r.Ok? ==> r.value.Shaped() && |r.value.rows| == |t.rows|
  {
    if groupCols == [] then Err(NoGroupKeys)
    else match FirstMissing(t, groupCols)
      case Some(g) => Err(MissingColumn(g))
      case None =>
        if col !in t.columns then Err(MissingColumn(col))
        else Ok(SetColumn(t, PctName(col), PctColumn(GroupKeys(t, groupCols), ColumnCells(t, col))))
  }

  /** The loop over metric columns, as a fold. */
  function AddPercentilesSpec(t: Table, metricCols: seq<string>, groupCols: seq<string>): (r: Result<Table>)
    requires t.Shaped()
    ensures r.Ok? ==> r.value.Shaped() && |r.value.rows| == |t.rows|
    decreases |metricCols|
  {
    if metricCols == [] then Ok(t)
    else match PercentileStep(t, metricCols[0], groupCols)
      case Err(e) => Err(e)
      case Ok(t1) => AddPercentilesSpec(t1, metricCols[1..], groupCols)
  }

  /** `add_percentiles`: copy the frame, then add one percentile column per metric. */
  method AddPercentiles(df: Table, metricCols: seq<string>, groupCols: seq<string>) returns (r: Result<Table>)
    requires df.Shaped()
    ensures r == AddPercentilesSpec(df, metricCols, groupCols)
  {
    var out := df;
    var k := 0;
    while k < |metricCols|
      invariant 0 <= k <= |metricCols| && out.Shaped()
      invariant AddPercentilesSpec(df, metricCols, groupCols) == AddPercentilesSpec(out, metricCols[k..], groupCols)
    {
      var step := PercentileStep(out, metricCols[k], groupCols);
      if step.Err? {
        return Err(step.error);
      }
      out := step.value;
      k := k + 1;
    }
    return Ok(out);
  }

  function PctNames(metricCols: seq<string>): (r: seq<string>)
    ensures |r| == |metricCols|
    ensures forall k :: 0 <= k < |r| ==> r[k] == PctName(metricCols[k])
  {
    seq(|metricCols|, k requires 0 <= k < |metricCols| => PctName(metricCols[k]))
  }

  /**
   * The names do not collide: metrics are distinct, no percentile column exists
   * yet, and no metric or grouping column is itself one of the new names.
   */
  predicate NoClash(t: Table, metricCols: seq<string>, groupCols: seq<string>) {
    && (forall a, b :: 0 <= a < b < |metricCols| ==> metricCols[a] != metricCols[b])
    && (forall a :: 0 <= a < |metricCols| ==> PctName(metricCols[a]) !in t.columns)
    && (forall a, c :: 0 <= a < |metricCols| && c in metricCols + groupCols ==> c != PctName(metricCols[a]))
  }

  /**
   * Without name clashes, the call fails exactly when there are metrics and the
   * grouping columns are empty or some grouping or metric column is missing.
   */
  lemma {:induction false} AddPercentilesFails(t: Table, metricCols: seq<string>, groupCols: seq<string>)
    requires t.Shaped() && NoClash(t, metricCols, groupCols)
    ensures AddPercentilesSpec(t, metricCols, groupCols).Err? <==>
      metricCols != [] && (groupCols == [] || exists c :: c in metricCols + groupCols && c !in t.columns)
    ensures metricCols != [] && groupCols == [] ==> AddPercentilesSpec(t, metricCols, groupCols) == Err(NoGroupKeys)
    decreases |metricCols|
  {
    if metricCols != [] && groupCols != [] {
      var m := metricCols[0];
      var step := PercentileStep(t, m, groupCols);
      if step.Ok? {
        var t1 := step.value;
        var rest := metricCols[1..];
        NoClashStep(t, metricCols, groupCols);
        AddPercentilesFails(t1, rest, groupCols);
        forall c | c in rest + groupCols
          ensures c in t1.columns <==> c in t.columns
        {
          assert c in metricCols + groupCols;
          assert c != PctName(metricCols[0]);
        }
        assert m in t.columns;
        assert forall c :: c in metricCols + groupCols <==> c == m || c in rest + groupCols;
      } else {
        assert exists c :: c in metricCols + groupCols && c !in t.columns by {
          match FirstMissing(t, groupCols)
          case Some(g) => assert g in metricCols + groupCols;
          case None => assert m in metricCols + groupCols;
        }
      }
    }
  }

  /** The clash-freedom survives the first step, for the remaining metrics. */
  lemma NoClashStep(t: Table, metricCols: seq<string>, groupCols: seq<string>)
    requires t.Shaped() && NoClash(t, metricCols, groupCols) && metricCols != []
    requires PercentileStep(t, metricCols[0], groupCols).Ok?
    ensures var t1 := PercentileStep(t, metricCols[0], groupCols).value;
      && t1.columns == t.columns + [PctName(metricCols[0])]
      && NoClash(t1, metricCols[1..], groupCols)
  {
    var m := metricCols[0];
    var rest := metricCols[1..];
    var t1 := PercentileStep(t, m, groupCols).value;
    assert PctName(m) !in t.columns;
    forall a | 0 <= a < |rest|
      ensures PctName(rest[a]) !in t1.columns
    {
      assert rest[a] == metricCols[a + 1] && rest[a] != m;
      if PctName(rest[a]) == PctName(m) {
        PctNameInjective(rest[a], m);
        assert false;
      }
    }
    forall a, c | 0 <= a < |rest| && c in rest + groupCols
      ensures c != PctName(rest[a])
    {
      assert rest[a] == metricCols[a + 1];
      assert c in metricCols + groupCols;
    }
  }

  /** What the first step does, for the remaining metrics and the grouping columns. */
  lemma StepFacts(t: Table, metricCols: seq<string>, groupCols: seq<string>)
    requires t.Shaped() && NoClash(t, metricCols, groupCols) && metricCols != []
    requires PercentileStep(t, metricCols[0], groupCols).Ok?
    ensures var t1 := PercentileStep(t, metricCols[0], groupCols).value;
      && GroupKeys(t1, groupCols) == GroupKeys(t, groupCols)
      && (forall a :: 1 <= a < |metricCols| ==> ColumnCells(t1, metricCols[a]) == ColumnCells(t, metricCols[a]))
      && (forall i :: 0 <= i < |t.rows| ==>
            Get(t1, i, PctName(metricCols[0])) == Pct(GroupKeys(t, groupCols), ColumnCells(t, metricCols[0]), i))
  {
    var t1 := PercentileStep(t, metricCols[0], groupCols).value;
    forall i, k | 0 <= i < |t.rows| && 0 <= k < |groupCols|
      ensures Get(t1, i, groupCols[k]) == Get(t, i, groupCols[k])
    {
      assert groupCols[k] in metricCols + groupCols;
    }
    forall i | 0 <= i < |t.rows|
      ensures GroupKey(t1, i, groupCols) == GroupKey(t, i, groupCols)
    {
    }
    forall a | 1 <= a < |metricCols|
      ensures ColumnCells(t1, metricCols[a]) == ColumnCells(t, metricCols[a])
    {
      assert metricCols[a] in metricCols + groupCols;
    }
  }

  /**
   * `r` is `t` with `pct_<metric>` appended for each metric in order: every
   * row and every input column's cells kept, each new cell the row's grouped
   * percentile of that metric in `t`.
   */
  predicate PctAdded(t: Table, metricCols: seq<string>, groupCols: seq<string>, r: Table) {
    PctFrame(t, metricCols, r) && PctValues(t, metricCols, groupCols, r)
  }

  /** The columns of `r` are those of `t` then the `pct_` names; rows and input cells are kept. */
  predicate PctFrame(t: Table, metricCols: seq<string>, r: Table) {
    && r.columns == t.columns + PctNames(metricCols)
    && |r.rows| == |t.rows|
    && (forall i, d :: 0 <= i < |t.rows| && d in t.columns ==> Get(r, i, d) == Get(t, i, d))
  }

  /** Each `pct_<metric>` cell of `r` is the row's grouped percentile of that metric in `t`. */
  predicate PctValues(t: Table, metricCols: seq<string>, groupCols: seq<string>, r: Table) {
    forall i, a :: 0 <= i < |t.rows| && 0 <= a < |metricCols| ==>
      Get(r, i, PctName(metricCols[a])) == Pct(GroupKeys(t, groupCols), ColumnCells(t, metricCols[a]), i)
  }

  /** Without name clashes, a successful call adds the percentile columns and changes nothing else. */
  lemma {:induction false} AddPercentilesResult(t: Table, metricCols: seq<string>, groupCols: seq<string>)
    requires t.Shaped() && NoClash(t, metricCols, groupCols)
    requires AddPercentilesSpec(t, metricCols, groupCols).Ok?
    ensures PctAdded(t, metricCols, groupCols, AddPercentilesSpec(t, metricCols, groupCols).value)
    decreases |metricCols|
  {
    if metricCols == [] {
      assert t.columns + PctNames(metricCols) == t.columns;
    } else {
      var t1 := PercentileStep(t, metricCols[0], groupCols).value;
      NoClashStep(t, metricCols, groupCols);
      AddPercentilesResult(t1, metricCols[1..], groupCols);
      PctAddedStep(t, metricCols, groupCols, AddPercentilesSpec(t, metricCols, groupCols).value);
    }
  }

  /** The first metric's column, then the rest: the result for the rest of `t1` is the result for `t`. */
  lemma PctAddedStep(t: Table, metricCols: seq<string>, groupCols: seq<string>, r: Table)
    requires t.Shaped() && NoClash(t, metricCols, groupCols) && metricCols != []
    requires PercentileStep(t, metricCols[0], groupCols).Ok?
    requires PctAdded(PercentileStep(t, metricCols[0], groupCols).value, metricCols[1..], groupCols, r)
    ensures PctAdded(t, metricCols, groupCols, r)
  {
    assert PctName(metricCols[0]) !in t.columns;
    PctAddedFrame(t, metricCols, groupCols, r);
    PctAddedFirst(t, metricCols, groupCols, r);
    PctAddedRest(t, metricCols, groupCols, r);
  }

  lemma PctAddedFrame(t: Table, metricCols: seq<string>, groupCols: seq<string>, r: Table)
    requires t.Shaped() && metricCols != [] && PctName(metricCols[0]) !in t.columns
    requires PercentileStep(t, metricCols[0], groupCols).Ok?
    requires PctFrame(PercentileStep(t, metricCols[0], groupCols).value, metricCols[1..], r)
    ensures PctFrame(t, metricCols, r)
  {
    var m := metricCols[0];
    var cells := PctColumn(GroupKeys(t, groupCols), ColumnCells(t, m));
    assert PercentileStep(t, m, groupCols).value == SetColumn(t, PctName(m), cells);
    assert PctNames(metricCols) == [PctName(m)] + PctNames(metricCols[1..]);
    AppendedFrame(t, PctName(m), cells, PctNames(metricCols[1..]), r);
  }

  /** A new column appended, then `names`: the input's rows and cells are kept. */
  lemma AppendedFrame(t: Table, c: string, cells: seq<Cell>, names: seq<string>, r: Table)
    requires t.Shaped() && |cells| == |t.rows| && c !in t.columns
    requires var t1 := SetColumn(t, c, cells);
      && r.columns == t1.columns + names
      && |r.rows| == |t1.rows|
      && forall i, d :: 0 <= i < |t1.rows| && d in t1.columns ==> Get(r, i, d) == Get(t1, i, d)
    ensures r.columns == t.columns + ([c] + names) && |r.rows| == |t.rows|
    ensures forall i, d :: 0 <= i < |t.rows| && d in t.columns ==> Get(r, i, d) == Get(t, i, d)
  {
    var t1 := SetColumn(t, c, cells);
    forall i, d | 0 <= i < |t.rows| && d in t.columns
      ensures Get(r, i, d) == Get(t, i, d)
    {
      assert d in t1.columns && d != c;
    }
  }

  lemma PctAddedFirst(t: Table, metricCols: seq<string>, groupCols: seq<string>, r: Table)
    requires t.Shaped() && NoClash(t, metricCols, groupCols) && metricCols != []
    requires PercentileStep(t, metricCols[0], groupCols).Ok?
    requires PctAdded(PercentileStep(t, metricCols[0], groupCols).value, metricCols[1..], groupCols, r)
    ensures forall i :: 0 <= i < |t.rows| ==>
      Get(r, i, PctName(metricCols[0])) == Pct(GroupKeys(t, groupCols), ColumnCells(t, metricCols[0]), i)
  {
    var m := metricCols[0];
    var t1 := PercentileStep(t, m, groupCols).value;
    NoClashStep(t, metricCols, groupCols);
    StepFacts(t, metricCols, groupCols);
    assert PctName(m) in t1.columns;
  }

  lemma PctAddedRest(t: Table, metricCols: seq<string>, groupCols: seq<string>, r: Table)
    requires t.Shaped() && NoClash(t, metricCols, groupCols) && metricCols != []
    requires PercentileStep(t, metricCols[0], groupCols).Ok?
    requires PctAdded(PercentileStep(t, metricCols[0], groupCols).value, metricCols[1..], groupCols, r)
    ensures forall i, a :: 0 <= i < |t.rows| && 1 <= a < |metricCols| ==>
      Get(r, i, PctName(metricCols[a])) == Pct(GroupKeys(t, groupCols), ColumnCells(t, metricCols[a]), i)
  {
    var rest := metricCols[1..];
    StepFacts(t, metricCols, groupCols);
    forall i, a | 0 <= i < |t.rows| && 1 <= a < |metricCols|
      ensures Get(r, i, PctName(metricCols[a])) == Pct(GroupKeys(t, groupCols), ColumnCells(t, metricCols[a]), i)
    {
      assert metricCols[a] == rest[a - 1];
    }
  }
}
